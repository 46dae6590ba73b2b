/**
 The `scheduled` group of the name patterns: `Run.timestamp_regex`
 (paddles/models/runs.py:67-68), read field by field.

 The regex is six digit fields `[0-9]{lo,hi}`, each followed by a literal
 separator character; the last field is followed by the `-` that every name
 pattern puts right after the `scheduled` group. Because no separator is a
 digit, each field of a match is exactly the run of digits where it starts,
 so the group's extent is determined by where it starts.
 */
module Timestamps {
  import opened Wrappers

  /** `[0-9]{lo,hi}` followed by the literal character `sep`. */
  datatype Field = Field(lo: nat, hi: nat, sep: char)

  /** `[0-9]{1,4}-[0-9]{1,2}-[0-9]{1,2}_[0-9]{1,2}:[0-9]{1,2}:[0-9]{1,2}` and the `-` after it. */
  const TimestampFields: seq<Field> :=
    [Field(1, 4, '-'), Field(1, 2, '-'), Field(1, 2, '_'), Field(1, 2, ':'), Field(1, 2, ':'), Field(1, 2, '-')]

  /** The six integers of a matched timestamp, before any calendar check. */
  datatype Timestamp = Timestamp(year: nat, month: nat, day: nat, hour: nat, minute: nat, second: nat)

  predicate IsDigit(c: char)
  {
    '0' <= c <= '9'
  }

  predicate AllDigits(s: string, i: nat, j: nat)
    requires i <= j <= |s|
  {
    forall k | i <= k < j :: IsDigit(s[k])
  }

  /** The length of the run of digits starting at `i`. */
  function DigitRun(s: string, i: nat): (n: nat)
    requires i <= |s|
    ensures i + n <= |s| && AllDigits(s, i, i + n)
    ensures i + n == |s| || !IsDigit(s[i + n])
    decreases |s| - i
  {
    if i < |s| && IsDigit(s[i]) then 1 + DigitRun(s, i + 1) else 0
  }

  /** A run of digits that ends at a non-digit is the whole run starting there. */
  lemma RunEndsAtNonDigit(s: string, i: nat, j: nat)
    requires i <= j < |s| && AllDigits(s, i, j) && !IsDigit(s[j])
    ensures j == i + DigitRun(s, i)
  {
  }

  function Pow10(n: nat): (r: nat)
    ensures r >= 1
  {
    if n == 0 then 1 else 10 * Pow10(n - 1)
  }

  /** The decimal value of the digits `s[i..j]`. */
  function DigitsValue(s: string, i: nat, j: nat): (v: nat)
    requires i <= j <= |s| && AllDigits(s, i, j)
    ensures v < Pow10(j - i)
    decreases j - i
  {
    if i == j then 0 else 10 * DigitsValue(s, i, j - 1) + (s[j - 1] as int - '0' as int)
  }

  /** Where a match of the fields ends (just past the last separator), and the fields' values. */
  datatype FieldsRead = FieldsRead(end: nat, values: seq<nat>)

  /**
   Match the fields from position `i`, each field taking the run of digits
   there; `None` if the regex cannot match at `i`.
   */
  function ReadFields(s: string, i: nat, fs: seq<Field>): (r: Option<FieldsRead>)
    requires i <= |s|
    ensures r.Some? ==> i <= r.value.end <= |s| && |r.value.values| == |fs|
    ensures r.Some? && fs != [] ==> i < r.value.end && s[r.value.end - 1] == fs[|fs| - 1].sep
    decreases fs
  {
    if fs == [] then Some(FieldsRead(i, []))
    else
      var n := DigitRun(s, i);
      if fs[0].lo <= n <= fs[0].hi && i + n < |s| && s[i + n] == fs[0].sep then
        match ReadFields(s, i + n + 1, fs[1..])
        case None => None
        case Some(rest) => Some(FieldsRead(rest.end, [DigitsValue(s, i, i + n)] + rest.values))
      else None
  }

  /** Each value read has at most as many digits as its field allows. */
  lemma {:induction false} ReadFieldsBounds(s: string, i: nat, fs: seq<Field>)
    requires i <= |s| && ReadFields(s, i, fs).Some?
    ensures forall m | 0 <= m < |fs| :: ReadFields(s, i, fs).value.values[m] < Pow10(fs[m].hi)
    decreases fs
  {
    if fs != [] {
      var n := DigitRun(s, i);
      var values := ReadFields(s, i, fs).value.values;
      ReadFieldsBounds(s, i + n + 1, fs[1..]);
      Pow10Monotone(n, fs[0].hi);
      assert values == [DigitsValue(s, i, i + n)] + ReadFields(s, i + n + 1, fs[1..]).value.values;
    }
  }

  lemma {:induction false} Pow10Monotone(a: nat, b: nat)
    requires a <= b
    ensures Pow10(a) <= Pow10(b)
    decreases b
  {
    if a < b {
      Pow10Monotone(a, b - 1);
    }
  }

  /**
   The regex's own reading: `s[i..e]` is a match of the fields, trying any
   number of digits between `lo` and `hi` in each field.
   */
  ghost predicate FieldsSpan(s: string, i: nat, fs: seq<Field>, e: nat)
    decreases fs
  {
    if fs == [] then e == i
    else
      exists j | i + fs[0].lo <= j <= i + fs[0].hi :: FieldSpan(s, i, fs[0], j) && FieldsSpan(s, j + 1, fs[1..], e)
  }

  /** `s[i..j]` is digits that `f` accepts and `s[j]` is its separator. */
  predicate FieldSpan(s: string, i: nat, f: Field, j: nat)
  {
    i + f.lo <= j <= i + f.hi && j < |s| && AllDigits(s, i, j) && s[j] == f.sep
  }

  predicate NonDigitSeparators(fs: seq<Field>)
  {
    forall m | 0 <= m < |fs| :: !IsDigit(fs[m].sep)
  }

  /** With non-digit separators, the deterministic reading finds exactly the regex's matches. */
  lemma ReadFieldsIsSpan(s: string, i: nat, fs: seq<Field>, e: nat)
    requires i <= |s| && NonDigitSeparators(fs)
    ensures (ReadFields(s, i, fs).Some? && ReadFields(s, i, fs).value.end == e) <==> FieldsSpan(s, i, fs, e)
  {
    if FieldsSpan(s, i, fs, e) {
      SpanIsRead(s, i, fs, e);
    }
    if ReadFields(s, i, fs).Some? && ReadFields(s, i, fs).value.end == e {
      ReadIsSpan(s, i, fs);
    }
  }

  lemma NonDigitSeparatorsTail(fs: seq<Field>)
    requires fs != [] && NonDigitSeparators(fs)
    ensures NonDigitSeparators(fs[1..])
  {
    forall m | 0 <= m < |fs[1..]| ensures !IsDigit(fs[1..][m].sep) {
      assert fs[1..][m] == fs[m + 1];
    }
  }

  /** Every match the regex can make is the one the deterministic reading makes. */
  lemma {:induction false} SpanIsRead(s: string, i: nat, fs: seq<Field>, e: nat)
    requires i <= |s| && NonDigitSeparators(fs) && FieldsSpan(s, i, fs, e)
    ensures ReadFields(s, i, fs).Some? && ReadFields(s, i, fs).value.end == e
    decreases fs
  {
    if fs != [] {
      var n := SpanHead(s, i, fs, e);
      SpanIsRead(s, i + n + 1, fs[1..], e);
      ReadFieldsStep(s, i, fs);
    }
  }

  /** How `ReadFields` continues after a first field that fits. */
  lemma ReadFieldsStep(s: string, i: nat, fs: seq<Field>)
    requires i <= |s| && fs != []
    requires var n := DigitRun(s, i); fs[0].lo <= n <= fs[0].hi && i + n < |s| && s[i + n] == fs[0].sep
    requires ReadFields(s, i + DigitRun(s, i) + 1, fs[1..]).Some?
    ensures ReadFields(s, i, fs).Some?
    ensures ReadFields(s, i, fs).value.end == ReadFields(s, i + DigitRun(s, i) + 1, fs[1..]).value.end
  {
  }

  /** The first field of a regex match is the run of digits where it starts. */
  lemma SpanHead(s: string, i: nat, fs: seq<Field>, e: nat) returns (n: nat)
    requires i <= |s| && NonDigitSeparators(fs) && fs != [] && FieldsSpan(s, i, fs, e)
    ensures n == DigitRun(s, i)
    ensures fs[0].lo <= n <= fs[0].hi && i + n < |s| && s[i + n] == fs[0].sep
    ensures FieldsSpan(s, i + n + 1, fs[1..], e)
    ensures i + n + 1 <= |s| && NonDigitSeparators(fs[1..])
  {
    NonDigitSeparatorsTail(fs);
    var j :| i + fs[0].lo <= j <= i + fs[0].hi && FieldSpan(s, i, fs[0], j) && FieldsSpan(s, j + 1, fs[1..], e);
    assert !IsDigit(fs[0].sep);
    RunEndsAtNonDigit(s, i, j);
    n := j - i;
  }

  /** The deterministic reading's match is one the regex can make. */
  lemma {:induction false} ReadIsSpan(s: string, i: nat, fs: seq<Field>)
    requires i <= |s| && ReadFields(s, i, fs).Some?
    ensures FieldsSpan(s, i, fs, ReadFields(s, i, fs).value.end)
    decreases fs
  {
    if fs != [] {
      var n := DigitRun(s, i);
      var e := ReadFields(s, i, fs).value.end;
      ReadIsSpan(s, i + n + 1, fs[1..]);
      assert ReadFields(s, i + n + 1, fs[1..]).value.end == e;
      assert FieldSpan(s, i, fs[0], i + n) && FieldsSpan(s, i + n + 1, fs[1..], e);
    }
  }

  /** `t` is the text of `s` from `lo` on, for `|t|` characters. */
  predicate Shifted(s: string, t: string, lo: nat)
  {
    lo + |t| <= |s| && forall k | 0 <= k < |t| :: t[k] == s[lo + k]
  }

  /** A run of digits that stops inside `t` is the same run in `t`. */
  lemma {:induction false} DigitRunShift(s: string, t: string, lo: nat, i: nat)
    requires Shifted(s, t, lo) && lo <= i <= lo + |t| && i + DigitRun(s, i) < lo + |t|
    ensures DigitRun(t, i - lo) == DigitRun(s, i)
    decreases lo + |t| - i
  {
    assert t[i - lo] == s[lo + (i - lo)];
    if IsDigit(s[i]) {
      DigitRunShift(s, t, lo, i + 1);
    }
  }

  /** The value of a run of `n` digits does not depend on the text around it. */
  lemma {:induction false} DigitsValueShift(s: string, t: string, lo: nat, i: nat, n: nat)
    requires Shifted(s, t, lo) && lo <= i && i + n <= lo + |t| && AllDigits(s, i, i + n)
    ensures AllDigits(t, i - lo, i - lo + n)
    ensures DigitsValue(t, i - lo, i - lo + n) == DigitsValue(s, i, i + n)
    decreases n
  {
    assert forall k | i - lo <= k < i - lo + n :: t[k] == s[lo + k];
    if n > 0 {
      DigitsValueShift(s, t, lo, i, n - 1);
      assert t[i - lo + n - 1] == s[lo + (i - lo + n - 1)];
    }
  }

  /**
   The reading of the fields from `i` depends only on the text it spans: read
   from a copy of the text that starts at or before `i` and ends where the
   match ends, it gives the same values.
   */
  lemma {:induction false} ReadFieldsShift(s: string, t: string, lo: nat, i: nat, fs: seq<Field>, r: FieldsRead)
    requires lo <= i <= |s| && ReadFields(s, i, fs) == Some(r)
    requires Shifted(s, t, lo) && lo + |t| == r.end
    ensures ReadFields(t, i - lo, fs) == Some(FieldsRead(|t|, r.values))
    decreases fs
  {
    if fs != [] {
      var n, rest := ReadFieldsHead(s, i, fs, r);
      var j := i - lo;
      ReadFieldsShift(s, t, lo, i + n + 1, fs[1..], rest);
      assert (i + n + 1) - lo == j + n + 1;
      DigitRunShift(s, t, lo, i);
      DigitsValueShift(s, t, lo, i, n);
      assert t[j + n] == s[lo + (j + n)];
      ReadFieldsCons(t, j, fs, n, FieldsRead(|t|, rest.values), r.values);
    } else {
      assert r == FieldsRead(i, []);
    }
  }


  /** A regex match of the fields in `t` is one wherever `t` is copied. */
  lemma {:induction false} SpanExtend(s: string, t: string, lo: nat, j: nat, fs: seq<Field>, e: nat)
    requires Shifted(s, t, lo) && FieldsSpan(t, j, fs, e)
    ensures FieldsSpan(s, lo + j, fs, lo + e)
    decreases fs
  {
    if fs != [] {
      var k :| j + fs[0].lo <= k <= j + fs[0].hi && FieldSpan(t, j, fs[0], k) && FieldsSpan(t, k + 1, fs[1..], e);
      SpanExtend(s, t, lo, k + 1, fs[1..], e);
      assert s[lo + k] == t[k];
      assert forall m | lo + j <= m < lo + k :: s[m] == t[m - lo];
      assert FieldSpan(s, lo + j, fs[0], lo + k);
    }
  }

  /**
   The converse of `ReadFieldsShift`: with non-digit separators, fields that
   read the whole of `t` read the same wherever `t` is copied.
   */
  lemma ReadFieldsExtend(s: string, t: string, lo: nat, fs: seq<Field>, r: FieldsRead)
    requires NonDigitSeparators(fs) && ReadFields(t, 0, fs) == Some(r) && r.end == |t| && Shifted(s, t, lo)
    ensures ReadFields(s, lo, fs) == Some(FieldsRead(lo + |t|, r.values))
  {
    ReadSpanCopied(s, t, lo, fs, r);
    SpanIsRead(s, lo, fs, lo + |t|);
    ReadFieldsShift(s, t, lo, lo, fs, ReadFields(s, lo, fs).value);
  }

  /** The regex match that reads the whole of `t` is a match wherever `t` is copied. */
  lemma ReadSpanCopied(s: string, t: string, lo: nat, fs: seq<Field>, r: FieldsRead)
    requires ReadFields(t, 0, fs) == Some(r) && r.end == |t| && Shifted(s, t, lo)
    ensures FieldsSpan(s, lo, fs, lo + |t|)
  {
    ReadIsSpan(t, 0, fs);
    SpanExtend(s, t, lo, 0, fs, |t|);
  }

  /** What a successful `ReadFields` read in its first field, and what the other fields read. */
  lemma ReadFieldsHead(s: string, i: nat, fs: seq<Field>, r: FieldsRead) returns (n: nat, rest: FieldsRead)
    requires i <= |s| && fs != [] && ReadFields(s, i, fs) == Some(r)
    ensures n == DigitRun(s, i) && fs[0].lo <= n <= fs[0].hi && i + n < |s| && s[i + n] == fs[0].sep
    ensures ReadFields(s, i + n + 1, fs[1..]) == Some(rest)
    ensures rest.end == r.end && r.values == [DigitsValue(s, i, i + n)] + rest.values
  {
    n := DigitRun(s, i);
    rest := ReadFields(s, i + n + 1, fs[1..]).value;
  }

  /** `ReadFields` after a first field of `n` digits that fits, followed by what the other fields read. */
  lemma ReadFieldsCons(t: string, i: nat, fs: seq<Field>, n: nat, rest: FieldsRead, values: seq<nat>)
    requires i <= |t| && fs != [] && n == DigitRun(t, i)
    requires fs[0].lo <= n <= fs[0].hi && i + n < |t| && t[i + n] == fs[0].sep
    requires ReadFields(t, i + n + 1, fs[1..]) == Some(rest)
    requires values == [DigitsValue(t, i, i + n)] + rest.values
    ensures ReadFields(t, i, fs) == Some(FieldsRead(rest.end, values))
  {
  }

  /** The six integers of a timestamp read. */
  function ToTimestamp(values: seq<nat>): Timestamp
    requires |values| == 6
  {
    Timestamp(values[0], values[1], values[2], values[3], values[4], values[5])
  }

  /**
   The six integers of a `scheduled` group read on its own, with the `-`
   that closes it in every name pattern; `None` unless the whole text is one
   match of the timestamp regex.
   */
  function ScheduledTimestamp(scheduled: string): Option<Timestamp>
  {
    match ReadFields(scheduled + "-", 0, TimestampFields)
    case Some(r) => if r.end == |scheduled| + 1 then Some(ToTimestamp(r.values)) else None
    case None => None
  }

  /**
   Fields matched inside a name and closed by a `-`: the text up to that `-`,
   read on its own and followed by a `-`, gives the same values.
   */
  lemma {:induction false} FieldsInName(s: string, i: nat, fs: seq<Field>, r: FieldsRead)
    requires i <= |s| && fs != [] && fs[|fs| - 1].sep == '-' && ReadFields(s, i, fs) == Some(r)
    ensures i < r.end && s[i..r.end - 1] + "-" == s[i..r.end]
    ensures ReadFields(s[i..r.end - 1] + "-", 0, fs) == Some(FieldsRead(r.end - i, r.values))
  {
    var text := s[i..r.end - 1] + "-";
    forall k | 0 <= k < |text| ensures text[k] == s[i + k] {
      if k < |text| - 1 {
        assert text[k] == s[i..r.end - 1][k];
      }
    }
    ReadFieldsShift(s, text, i, i, fs, r);
    assert text == s[i..r.end];
  }

  /** A timestamp matched inside a name, read on its own, gives the same integers. */
  lemma TimestampInName(s: string, i: nat, r: FieldsRead)
    requires i <= |s| && ReadFields(s, i, TimestampFields) == Some(r)
    ensures i < r.end && s[i..r.end - 1] + "-" == s[i..r.end]
    ensures ScheduledTimestamp(s[i..r.end - 1]) == Some(ToTimestamp(r.values))
  {
    FieldsInName(s, i, TimestampFields, r);
  }

  /** A matched timestamp has a year of at most four digits and other fields of at most two. */
  lemma TimestampBounds(s: string, i: nat)
    requires i <= |s| && ReadFields(s, i, TimestampFields).Some?
    ensures var t := ToTimestamp(ReadFields(s, i, TimestampFields).value.values);
            t.year < 10000 && t.month < 100 && t.day < 100 && t.hour < 100 && t.minute < 100 && t.second < 100
  {
    var v := ReadFields(s, i, TimestampFields).value.values;
    ReadFieldsBounds(s, i, TimestampFields);
    assert Pow10(4) == 10000 && Pow10(2) == 100;
    assert v[0] < Pow10(TimestampFields[0].hi);
  }

  /** No separator of the timestamp fields is a digit. */
  lemma TimestampSeparators()
    ensures NonDigitSeparators(TimestampFields)
  {
  }

  /**
   The timestamp regex has at most one way to match from `i`: the reading of
   the timestamp fields ends at `e` exactly when the regex can match `s[i..e]`.
   */
  lemma TimestampReadIsSpan(s: string, i: nat, e: nat)
    requires i <= |s|
    ensures (ReadFields(s, i, TimestampFields).Some? && ReadFields(s, i, TimestampFields).value.end == e)
            <==> FieldsSpan(s, i, TimestampFields, e)
  {
    TimestampSeparators();
    ReadFieldsIsSpan(s, i, TimestampFields, e);
  }

  /** `ReadFields` fails when the first field is not closed by its separator. */
  lemma ReadFieldsWrongSeparator(s: string, i: nat, fs: seq<Field>)
    requires i <= |s| && fs != [] && i + DigitRun(s, i) < |s| && s[i + DigitRun(s, i)] != fs[0].sep
    ensures ReadFields(s, i, fs) == None
  {
  }

  /** `ReadFields` fails when the fields after the first one fail. */
  lemma ReadFieldsRestFails(s: string, i: nat, fs: seq<Field>)
    requires i <= |s| && fs != [] && i + DigitRun(s, i) < |s|
    requires ReadFields(s, i + DigitRun(s, i) + 1, fs[1..]) == None
    ensures ReadFields(s, i, fs) == None
  {
  }

  /** A reading whose separators are no `-` except perhaps the last has no `-` before its end. */
  lemma {:induction false} NoDashBeforeEnd(s: string, i: nat, fs: seq<Field>, r: FieldsRead)
    requires i <= |s| && ReadFields(s, i, fs) == Some(r)
    requires forall m | 0 <= m < |fs| - 1 :: fs[m].sep != '-'
    ensures forall q | i <= q < r.end - 1 :: s[q] != '-'
    decreases fs
  {
    if fs != [] {
      var n, j, rest := ReadFieldsNext(s, i, fs, r);
      assert forall m | 0 <= m < |fs[1..]| - 1 :: fs[1..][m].sep != '-' by {
        forall m | 0 <= m < |fs[1..]| - 1 ensures fs[1..][m].sep != '-' {
          assert fs[1..][m] == fs[m + 1];
        }
      }
      NoDashBeforeEnd(s, j, fs[1..], rest);
      assert |fs| > 1 ==> s[j - 1] != '-';
    }
  }

  /** The separators of a date and time: `-`, `-`, `_`, then none that is a `-` until the last. */
  predicate DateTimeSeparators(fs: seq<Field>)
  {
    |fs| >= 3 && fs[0].sep == '-' && fs[1].sep == '-' && fs[2].sep == '_'
    && forall m | 2 <= m < |fs| - 1 :: fs[m].sep != '-'
  }

  /** `ReadFieldsHead`, with the position `j` where the other fields start. */
  lemma ReadFieldsNext(s: string, i: nat, fs: seq<Field>, r: FieldsRead) returns (n: nat, j: nat, rest: FieldsRead)
    requires i <= |s| && fs != [] && ReadFields(s, i, fs) == Some(r)
    ensures n == DigitRun(s, i) && fs[0].lo <= n <= fs[0].hi && j == i + n + 1 && j <= |s| && s[j - 1] == fs[0].sep
    ensures ReadFields(s, j, fs[1..]) == Some(rest) && rest.end == r.end
    ensures forall q | i <= q < j - 1 :: s[q] != '-'
  {
    n := DigitRun(s, i);
    j := i + n + 1;
    rest := ReadFields(s, j, fs[1..]).value;
  }

  /**
   Inside a match of such fields, the only `-` before the closing one are the
   two of the date, just before `p1` and `p2`; the `_` before the hour closes
   the field that starts at `p2`.
   */
  lemma DateDashes(s: string, i: nat, fs: seq<Field>, r: FieldsRead) returns (p1: nat, p2: nat)
    requires i <= |s| && DateTimeSeparators(fs) && ReadFields(s, i, fs) == Some(r)
    ensures i < p1 < p2 < r.end && s[p1 - 1] == '-' && s[p2 - 1] == '-'
    ensures p2 == p1 + DigitRun(s, p1) + 1 && fs[1].lo <= DigitRun(s, p1) <= fs[1].hi
    ensures p2 + DigitRun(s, p2) < |s| && s[p2 + DigitRun(s, p2)] == '_'
    ensures forall q | i <= q < r.end - 1 && s[q] == '-' :: q == p1 - 1 || q == p2 - 1
  {
    var n0, r1, n1, r2, n2, p3, r3;
    n0, p1, r1 := ReadFieldsNext(s, i, fs, r);
    var fs1 := fs[1..];
    assert fs1[0] == fs[1] && fs1[1].sep == '_';
    n1, p2, r2 := ReadFieldsNext(s, p1, fs1, r1);
    var fs2 := fs1[1..];
    n2, p3, r3 := ReadFieldsNext(s, p2, fs2, r2);
    assert forall m | 0 <= m < |fs2[1..]| - 1 :: fs2[1..][m].sep != '-' by {
      forall m | 0 <= m < |fs2[1..]| - 1 ensures fs2[1..][m].sep != '-' {
        assert fs2[1..][m] == fs[m + 3];
      }
    }
    NoDashBeforeEnd(s, p3, fs2[1..], r3);
    OnlyTwoDashes(s, i, p1, p2, p3, r.end);
  }

  /** Where `-` is absent from every stretch but the ends of the first two, it is only there. */
  lemma OnlyTwoDashes(s: string, i: nat, p1: nat, p2: nat, p3: nat, e: nat)
    requires i < p1 < p2 < p3 <= e <= |s| && s[p3 - 1] != '-'
    requires forall q | i <= q < p1 - 1 :: s[q] != '-'
    requires forall q | p1 <= q < p2 - 1 :: s[q] != '-'
    requires forall q | p2 <= q < p3 - 1 :: s[q] != '-'
    requires forall q | p3 <= q < e - 1 :: s[q] != '-'
    ensures forall q | i <= q < e - 1 && s[q] == '-' :: q == p1 - 1 || q == p2 - 1
  {
  }

  /**
   No match of such fields starts right after a `-` inside another, before its
   closing one: the fields there would meet the `_` where a `-` is due.
   */
  lemma NoReadAfterInnerDash(s: string, i: nat, fs: seq<Field>, r: FieldsRead, j: nat)
    requires i <= |s| && DateTimeSeparators(fs) && ReadFields(s, i, fs) == Some(r)
    requires fs[1].lo >= fs[0].lo && fs[1].hi <= fs[0].hi
    ensures (i < j < r.end && s[j - 1] == '-') ==> ReadFields(s, j, fs) == None
  {
    var p1, p2 := DateDashes(s, i, fs, r);
    if i < j < r.end && s[j - 1] == '-' {
      NoReadAtDateDash(s, fs, p1, p2, j);
    }
  }

  /** No match of such fields starts at either position right after a date `-`. */
  lemma NoReadAtDateDash(s: string, fs: seq<Field>, p1: nat, p2: nat, j: nat)
    requires DateTimeSeparators(fs) && p1 < p2 <= |s| && p2 == p1 + DigitRun(s, p1) + 1 && s[p2 - 1] == '-'
    requires p2 + DigitRun(s, p2) < |s| && s[p2 + DigitRun(s, p2)] == '_'
    requires fs[0].lo <= DigitRun(s, p1) <= fs[0].hi
    requires j == p1 || j == p2
    ensures ReadFields(s, j, fs) == None
  {
    if j == p1 {
      AfterFirstDateDash(s, fs, p1, p2);
    } else {
      ReadFieldsWrongSeparator(s, p2, fs);
    }
  }

  lemma AfterFirstDateDash(s: string, fs: seq<Field>, p1: nat, p2: nat)
    requires DateTimeSeparators(fs) && p1 < p2 <= |s| && p2 == p1 + DigitRun(s, p1) + 1 && s[p2 - 1] == '-'
    requires p2 + DigitRun(s, p2) < |s| && s[p2 + DigitRun(s, p2)] == '_'
    requires fs[0].lo <= DigitRun(s, p1) <= fs[0].hi
    ensures ReadFields(s, p1, fs) == None
  {
    assert fs[1..][0].sep == '-';
    ReadFieldsWrongSeparator(s, p2, fs[1..]);
    ReadFieldsRestFails(s, p1, fs);
  }

  /** The timestamp fields have the separators of a date and a time. */
  lemma TimestampDateTime()
    ensures DateTimeSeparators(TimestampFields)
    ensures TimestampFields[1].lo >= TimestampFields[0].lo && TimestampFields[1].hi <= TimestampFields[0].hi
  {
  }
}
