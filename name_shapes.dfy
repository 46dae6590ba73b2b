/**
 Run names of the shape the docstring of `get_name_regexes` describes
 (paddles/models/runs.py): a user, the timestamp, then fields separated by
 `-`, where the suite and the branch may themselves hold a `-`.

 For such names the three patterns of `Run._parse_name` are solved outright:
 the leading `.*-` can only stop after the user, every catalog alternative
 that matches is a run of whole leading fields, and so is every branch. This
 is what shows which suite the backtracking of `re.match` settles on.
 */
module NameShapes {
  import opened Wrappers
  import opened Timestamps
  import opened NameRegexes
  import opened NameMatch
  import Jobs
  import Runs

  /** One `-`-separated field: not empty, no `-`, newline or space, and not starting with a digit. */
  predicate Word(w: string)
  {
    w != [] && !IsDigit(w[0]) && forall i | 0 <= i < |w| :: w[i] != '-' && w[i] != '\n' && w[i] != ' '
  }

  predicate Words(ws: seq<string>)
  {
    forall i | 0 <= i < |ws| :: Word(ws[i])
  }

  /** The text of the fields `ws`, joined by `-`. */
  function Dashed(ws: seq<string>): string
  {
    Join("-", ws)
  }

  lemma WordsSlice(ws: seq<string>, i: nat, j: nat)
    requires Words(ws) && i <= j <= |ws|
    ensures Words(ws[i..j]) && Words(ws[i..])
  {
    assert forall m | 0 <= m < j - i :: ws[i..j][m] == ws[i + m];
    assert forall m | 0 <= m < |ws| - i :: ws[i..][m] == ws[i + m];
  }

  // ---------------------------------------------------------------------------
  // Joined fields

  /** Joined fields split at a field boundary. */
  lemma {:induction false} DashedSplit(ws: seq<string>, r: nat)
    requires 1 <= r < |ws|
    ensures Dashed(ws) == Dashed(ws[..r]) + "-" + Dashed(ws[r..])
    decreases r
  {
    if r == 1 {
      assert ws[..1] == [ws[0]];
    } else {
      DashedSplit(ws[1..], r - 1);
      assert ws[1..][..r - 1] == ws[..r][1..];
      assert ws[1..][r - 1..] == ws[r..];
    }
  }

  /** Joined fields have no newline and no space, and start and end with a character of a field. */
  lemma {:induction false} DashedChars(ws: seq<string>)
    requires ws != [] && Words(ws)
    ensures |Dashed(ws)| >= |ws[0]| && Dashed(ws)[..|ws[0]|] == ws[0]
    ensures forall i | 0 <= i < |Dashed(ws)| :: Dashed(ws)[i] != '\n' && Dashed(ws)[i] != ' '
    ensures Stripped(Dashed(ws))
    decreases |ws|
  {
    if |ws| > 1 {
      DashedSplit(ws, 1);
      assert ws[..1] == [ws[0]];
      WordsSlice(ws, 1, |ws|);
      DashedChars(ws[1..]);
      var t := Dashed(ws[1..]);
      assert Dashed(ws) == ws[0] + "-" + t;
      assert Dashed(ws)[|Dashed(ws)| - 1] == t[|t| - 1];
      assert Word(ws[0]);
    } else {
      assert Word(ws[0]);
    }
  }

  /** Every `-` of joined fields is a field boundary. */
  lemma {:induction false} DashedDash(ws: seq<string>, i: nat) returns (r: nat)
    requires Words(ws) && i < |Dashed(ws)| && Dashed(ws)[i] == '-'
    ensures 1 <= r < |ws| && i == |Dashed(ws[..r])|
    decreases |ws|
  {
    assert Word(ws[0]);
    assert |ws| >= 2;
    DashedSplit(ws, 1);
    assert ws[..1] == [ws[0]];
    if i == |ws[0]| {
      r := 1;
    } else {
      WordsSlice(ws, 1, |ws|);
      var r' := DashedDash(ws[1..], i - |ws[0]| - 1);
      r := r' + 1;
      DashedSplit(ws[..r], 1);
      assert ws[..r][..1] == [ws[0]];
      assert ws[..r][1..] == ws[1..][..r'];
    }
  }

  /** Joining more leading fields gives a longer text that continues the shorter one with a `-`. */
  lemma DashedPrefix(ws: seq<string>, m: nat, m': nat)
    requires 1 <= m < m' <= |ws|
    ensures DashPrefix(Dashed(ws[..m]), Dashed(ws[..m']))
  {
    DashedSplit(ws[..m'], m);
    assert ws[..m'][..m] == ws[..m];
  }

  /** `b` continues `a` with a `-`: `a` is a leading run of fields of `b`. */
  predicate DashPrefix(a: string, b: string)
  {
    |a| < |b| && b[..|a|] == a && b[|a|] == '-'
  }

  // ---------------------------------------------------------------------------
  // The trailing groups, the branch and the suite over joined fields

  /** `s` from `e` on is the fields `vs` joined. */
  predicate FieldsFrom(s: string, e: nat, vs: seq<string>)
  {
    e <= |s| && s[e..] == Dashed(vs) && vs != [] && Words(vs)
  }

  /** The same fields, read from a position named differently. */
  lemma FieldsMoved(s: string, e: nat, e': nat, vs: seq<string>)
    requires FieldsFrom(s, e, vs) && e' == e
    ensures FieldsFrom(s, e', vs)
  {
  }

  /** After a boundary, the fields past the first one start after its `-`. */
  lemma FieldsFromNext(s: string, e: nat, vs: seq<string>, r: nat)
    requires FieldsFrom(s, e, vs) && 1 <= r < |vs|
    ensures e + |Dashed(vs[..r])| < |s| && s[e + |Dashed(vs[..r])|] == '-'
    ensures FieldsFrom(s, e + |Dashed(vs[..r])| + 1, vs[r..])
    ensures s[e..e + |Dashed(vs[..r])|] == Dashed(vs[..r])
  {
    DashedSplit(vs, r);
    WordsSlice(vs, r, |vs|);
  }

  /** A `-` of the joined fields is a boundary, and the rest of the fields follow it. */
  lemma FieldsFromDash(s: string, e: nat, vs: seq<string>, j: nat) returns (r: nat)
    requires FieldsFrom(s, e, vs) && e <= j < |s| && s[j] == '-'
    ensures 1 <= r < |vs| && j == e + |Dashed(vs[..r])| && FieldsFrom(s, j + 1, vs[r..])
  {
    r := DashedDash(vs, j - e);
    FieldsFromNext(s, e, vs, r);
  }

  /** Joined fields have no newline: `.*` matches any stretch of them. */
  lemma FieldsFromDots(s: string, e: nat, vs: seq<string>, i: nat, j: nat)
    requires FieldsFrom(s, e, vs) && e <= i <= j <= |s|
    ensures Dots(s, i, j)
  {
    DashedChars(vs);
    assert forall m | i <= m < j :: s[m] == Dashed(vs)[m - e];
  }

  /** From a `-` before fields `vs`, `-.*?` repeated `n` times can match only if `n <= |vs|`. */
  lemma {:induction false} LazyTailBound(s: string, i: nat, vs: seq<string>, n: nat)
    requires i < |s| && s[i] == '-' && FieldsFrom(s, i + 1, vs) && LazyTail(s, i, n)
    ensures n <= |vs|
    decreases n
  {
    if n >= 2 {
      var j :| i + 1 <= j <= |s| && LazyGroup(s, i, j, n);
      assert LazyTail(s, j, n - 1);
      var r := FieldsFromDash(s, i + 1, vs, j);
      LazyTailBound(s, j, vs[r..], n - 1);
    }
  }

  /** From a `-` before fields `vs`, `-.*?` repeated up to `|vs|` times matches. */
  lemma {:induction false} WordsLazyTail(s: string, i: nat, vs: seq<string>, n: nat)
    requires i < |s| && s[i] == '-' && FieldsFrom(s, i + 1, vs) && n <= |vs|
    ensures LazyTail(s, i, n)
    decreases n
  {
    if n == 1 {
      assert LazyGroup(s, i, i + 1, n);
    } else if n >= 2 {
      FieldsFromNext(s, i + 1, vs, 1);
      assert vs[..1] == [vs[0]];
      var j := i + 1 + |vs[0]|;
      WordsLazyTail(s, j, vs[1..], n - 1);
      FieldsFromDots(s, i + 1, vs, i + 1, j);
      assert LazyGroup(s, i, j, n);
    }
  }

  /** A branch that lets `tail` groups follow is a run of `n` whole fields, `tail` fields before the end. */
  lemma BranchIsWords(s: string, b: nat, vs: seq<string>, tail: nat, l: nat) returns (n: nat)
    requires FieldsFrom(s, b, vs) && tail >= 1 && BranchOk(s, tail, b, l)
    ensures 1 <= n && n + tail <= |vs| && l == |Dashed(vs[..n])| && s[b..b + l] == Dashed(vs[..n])
  {
    n := FieldsFromDash(s, b, vs, b + l);
    FieldsFromNext(s, b, vs, n);
    LazyTailBound(s, b + l, vs[n..], tail);
  }

  /** Any run of whole fields that leaves `tail` fields is a branch the trailing groups accept. */
  lemma WordsBranch(s: string, b: nat, vs: seq<string>, tail: nat, n: nat)
    requires FieldsFrom(s, b, vs) && tail >= 1 && 1 <= n && n + tail <= |vs|
    ensures BranchOk(s, tail, b, |Dashed(vs[..n])|)
  {
    var l := |Dashed(vs[..n])|;
    FieldsFromNext(s, b, vs, n);
    FieldsFromDots(s, b, vs, b, b + l);
    WordsLazyTail(s, b + l, vs[n..], tail);
  }

  /** A suite alternative that matches before a `-` is a run of `m` whole leading fields. */
  lemma SuiteIsWords(s: string, e: nat, ws: seq<string>, a: string) returns (m: nat)
    requires FieldsFrom(s, e, ws) && SuiteAt(s, e, a)
    ensures 1 <= m < |ws| && a == Dashed(ws[..m]) && FieldsFrom(s, e + |a| + 1, ws[m..])
  {
    m := FieldsFromDash(s, e, ws, e + |a|);
    FieldsFromNext(s, e, ws, m);
  }

  /** A run of whole leading fields matches as a suite alternative. */
  lemma WordsSuite(s: string, e: nat, ws: seq<string>, m: nat)
    requires FieldsFrom(s, e, ws) && 1 <= m < |ws|
    ensures SuiteAt(s, e, Dashed(ws[..m])) && FieldsFrom(s, e + |Dashed(ws[..m])| + 1, ws[m..])
  {
    FieldsFromNext(s, e, ws, m);
  }

  // ---------------------------------------------------------------------------
  // A whole run name

  /** A user name: no `-` and no newline. */
  predicate UserName(user: string)
  {
    forall i | 0 <= i < |user| :: user[i] != '-' && user[i] != '\n'
  }

  /** `user-scheduled-w0-w1-...`: a run name of the documented shape. */
  function RunName(user: string, scheduled: string, ws: seq<string>): string
  {
    user + "-" + scheduled + "-" + Dashed(ws)
  }

  /** `s` is the run name of `user`, `scheduled` (one whole timestamp) and the fields `ws`. */
  predicate IsRunName(s: string, user: string, scheduled: string, ws: seq<string>)
  {
    UserName(user) && ScheduledTimestamp(scheduled).Some? && ws != [] && Words(ws)
    && s == RunName(user, scheduled, ws)
  }

  /** Where the fields start: after the user, the timestamp and their two `-`. */
  function FieldsStart(user: string, scheduled: string): nat
  {
    |user| + |scheduled| + 2
  }

  /** What the lemmas below use of a run name: where its user, timestamp and fields lie. */
  predicate NameLayout(s: string, user: string, scheduled: string, ws: seq<string>)
  {
    ScheduledTimestamp(scheduled).Some?
    && |user| < |s| && s[|user|] == '-' && Dots(s, 0, |user|) && (forall q | 0 <= q < |user| :: s[q] != '-')
    && Shifted(s, scheduled + "-", |user| + 1)
    && FieldsFrom(s, FieldsStart(user, scheduled), ws)
  }

  lemma NameParts(s: string, user: string, scheduled: string, ws: seq<string>)
    requires IsRunName(s, user, scheduled, ws)
    ensures NameLayout(s, user, scheduled, ws)
  {
    var head := user + "-";
    var t := scheduled + "-";
    assert s == head + t + Dashed(ws);
    Pieces(s, head, t, Dashed(ws));
    assert forall q | 0 <= q < |user| :: s[q] == head[q] == user[q];
  }

  lemma Pieces(s: string, a: string, b: string, c: string)
    requires s == a + b + c
    ensures Shifted(s, a, 0) && Shifted(s, b, |a|) && s[|a| + |b|..] == c
  {
  }

  /** The leading `.*-` of a pattern can stop after the user: the timestamp is read there. */
  lemma NamePrefix(s: string, user: string, scheduled: string, ws: seq<string>) returns (f: FieldsRead)
    requires NameLayout(s, user, scheduled, ws)
    ensures PrefixAt(s, |user|) == Some(f) && f.end == FieldsStart(user, scheduled)
  {
    f := ScheduledPrefix(s, scheduled, |user|);
  }

  /** A `-` at `p` followed by a whole timestamp and its `-`: the prefix can stop at `p`. */
  lemma ScheduledPrefix(s: string, scheduled: string, p: nat) returns (f: FieldsRead)
    requires p < |s| && Dots(s, 0, p) && s[p] == '-'
    requires Shifted(s, scheduled + "-", p + 1) && ScheduledTimestamp(scheduled).Some?
    ensures PrefixAt(s, p) == Some(f) && f.end == p + |scheduled| + 2
  {
    f := ScheduledRead(s, scheduled, p + 1);
    PrefixRead(s, p, f);
  }

  lemma ScheduledRead(s: string, scheduled: string, lo: nat) returns (f: FieldsRead)
    requires Shifted(s, scheduled + "-", lo) && ScheduledTimestamp(scheduled).Some?
    ensures ReadFields(s, lo, TimestampFields) == Some(f) && f.end == lo + |scheduled| + 1
  {
    var t := scheduled + "-";
    var r := ReadFields(t, 0, TimestampFields).value;
    TimestampSeparators();
    ReadFieldsExtend(s, t, lo, TimestampFields, r);
    f := FieldsRead(lo + |t|, r.values);
  }

  lemma PrefixRead(s: string, p: nat, f: FieldsRead)
    requires p < |s| && Dots(s, 0, p) && s[p] == '-' && ReadFields(s, p + 1, TimestampFields) == Some(f)
    ensures PrefixAt(s, p) == Some(f)
  {
  }

  /** No timestamp is read where a field starts. */
  lemma NoReadAtFields(s: string, e: nat, vs: seq<string>)
    requires FieldsFrom(s, e, vs)
    ensures ReadFields(s, e, TimestampFields) == None
  {
    DashedChars(vs);
    assert Word(vs[0]);
    assert s[e] == vs[0][0];
  }

  /** The leading `.*-` of a pattern can stop nowhere but after the user. */
  lemma OnlyPrefix(s: string, user: string, scheduled: string, ws: seq<string>, q: nat)
    requires NameLayout(s, user, scheduled, ws)
    ensures PrefixAt(s, q).Some? ==> q == |user|
  {
    var e := FieldsStart(user, scheduled);
    var j := q + 1;
    if q < |user| {
      assert s[q] != '-';
    } else if |user| < q < e - 1 {
      var f := NamePrefix(s, user, scheduled, ws);
      TimestampDateTime();
      NoReadAfterInnerDash(s, |user| + 1, TimestampFields, f, j);
    } else if q == e - 1 {
      NoReadAtFields(s, j, ws);
    } else if e <= q < |s| && s[q] == '-' {
      var r := FieldsFromDash(s, e, ws, q);
      NoReadAtFields(s, j, ws[r..]);
    }
    assert q != |user| ==> q >= |s| || s[q] != '-' || ReadFields(s, j, TimestampFields) == None;
    PrefixFails(s, q);
  }

  lemma PrefixFails(s: string, q: nat)
    ensures (q >= |s| || s[q] != '-' || ReadFields(s, q + 1, TimestampFields) == None) ==> PrefixAt(s, q).None?
  {
  }

  /** The leading `.*-` of a pattern stops after the user, and only there. */
  lemma PrefixOfName(s: string, user: string, scheduled: string, ws: seq<string>, q: nat) returns (f: FieldsRead)
    requires NameLayout(s, user, scheduled, ws)
    ensures PrefixAt(s, q).Some? <==> q == |user|
    ensures PrefixAt(s, |user|) == Some(f) && f.end == FieldsStart(user, scheduled)
    ensures q == |user| ==> PrefixAt(s, q) == Some(f)
  {
    f := NamePrefix(s, user, scheduled, ws);
    OnlyPrefix(s, user, scheduled, ws, q);
  }

  // ---------------------------------------------------------------------------
  // Catalog matches of a run name

  /** The `scheduled` group of a run name is its timestamp text. */
  lemma NameScheduledGroup(s: string, user: string, scheduled: string, ws: seq<string>, f: FieldsRead, sl: nat, l: nat)
    requires NameLayout(s, user, scheduled, ws) && PrefixAt(s, |user|) == Some(f)
    requires f.end + sl + 1 + l <= |s|
    ensures GroupsAt(s, |user|, f, sl, l).scheduled == scheduled
    ensures ScheduledTimestamp(scheduled) == Some(GroupsAt(s, |user|, f, sl, l).timestamp)
  {
    var f' := NamePrefix(s, user, scheduled, ws);
    var g := GroupsAt(s, |user|, f, sl, l);
    var t := scheduled + "-";
    assert s[|user| + 1..f.end] == t;
    assert g.scheduled == (g.scheduled + "-")[..|g.scheduled|];
    assert scheduled == t[..|scheduled|];
  }

  /** A catalog match whose prefix reads `f`: what follows the timestamp. */
  lemma CatalogAltOk(s: string, alts: seq<string>, tail: nat, c: Choice, f: FieldsRead)
    requires CatalogMatch(s, alts, tail, c) && PrefixAt(s, c.p) == Some(f)
    ensures AltOk(s, alts, tail, f.end, c.k, c.l)
  {
  }

  /** What follows a prefix that reads `f`, once it matches, makes a catalog match. */
  lemma AltOkCatalog(s: string, alts: seq<string>, tail: nat, p: nat, k: nat, l: nat, f: FieldsRead)
    requires PrefixAt(s, p) == Some(f) && AltOk(s, alts, tail, f.end, k, l)
    ensures CatalogMatch(s, alts, tail, Choice(p, k, l))
  {
  }

  /** After the timestamp: a suite alternative and a branch the trailing groups accept are runs of whole fields. */
  lemma RestIsWords(s: string, e: nat, ws: seq<string>, a: string, tail: nat, l: nat) returns (m: nat, n: nat)
    requires FieldsFrom(s, e, ws) && tail >= 1 && SuiteAt(s, e, a) && BranchOk(s, tail, e + |a| + 1, l)
    ensures 1 <= m && 1 <= n && m + n + tail <= |ws| && a == Dashed(ws[..m]) && l == |Dashed(ws[m..m + n])|
    ensures s[e + |a| + 1..e + |a| + 1 + l] == Dashed(ws[m..m + n])
  {
    m := SuiteIsWords(s, e, ws, a);
    n := BranchIsWords(s, e + |a| + 1, ws[m..], tail, l);
    assert ws[m..][..n] == ws[m..m + n];
  }

  /** Whole fields after the timestamp: a suite of `m` fields and a branch of `n` fields that leave `tail` fields. */
  lemma WordsRest(s: string, e: nat, ws: seq<string>, a: string, tail: nat, m: nat, n: nat)
    requires FieldsFrom(s, e, ws) && tail >= 1 && 1 <= m && 1 <= n && m + n + tail <= |ws| && a == Dashed(ws[..m])
    ensures SuiteAt(s, e, a) && BranchOk(s, tail, e + |a| + 1, |Dashed(ws[m..m + n])|)
  {
    WordsSuite(s, e, ws, m);
    WordsBranch(s, e + |Dashed(ws[..m])| + 1, ws[m..], tail, n);
    assert ws[m..][..n] == ws[m..m + n];
  }

  /** The rest after the timestamp, as alternative `k` and branch length `l`, in whole fields. */
  lemma AltOkIsWords(s: string, e: nat, ws: seq<string>, alts: seq<string>, tail: nat, k: nat, l: nat)
    returns (m: nat, n: nat, x: string)
    requires FieldsFrom(s, e, ws) && tail >= 1 && AltOk(s, alts, tail, e, k, l)
    ensures SplitOf(alts, ws, k, l, m, n, tail)
    ensures e + |alts[k]| + 1 + l <= |s| && x == s[e + |alts[k]| + 1..e + |alts[k]| + 1 + l] && x == Dashed(ws[m..m + n])
  {
    m, n := RestIsWords(s, e, ws, alts[k], tail, l);
    x := Dashed(ws[m..m + n]);
  }

  /** Alternative `k` spelling the first `m` fields, with the next `n` fields as branch, matches after the timestamp. */
  lemma WordsAltOk(s: string, e: nat, ws: seq<string>, alts: seq<string>, tail: nat, k: nat, m: nat, n: nat)
    returns (l: nat)
    requires FieldsFrom(s, e, ws) && tail >= 1 && 1 <= m && 1 <= n && m + n + tail <= |ws|
    requires k < |alts| && alts[k] == Dashed(ws[..m])
    ensures l == |Dashed(ws[m..m + n])| && AltOk(s, alts, tail, e, k, l)
  {
    l := |Dashed(ws[m..m + n])|;
    WordsRest(s, e, ws, alts[k], tail, m, n);
  }

  /**
   Alternative `k` spells the first `m` fields and a branch of length `l` is
   the `n` fields after them, with at least `tail` fields left.
   */
  predicate SplitOf(alts: seq<string>, ws: seq<string>, k: nat, l: nat, m: nat, n: nat, tail: nat)
  {
    k < |alts| && 1 <= m && 1 <= n && m + n + tail <= |ws| && alts[k] == Dashed(ws[..m]) && l == |Dashed(ws[m..m + n])|
  }

  /**
   A catalog match of a run name: its prefix stops after the user, its suite is
   the first `m` fields and its branch the `n` fields after them, and at least
   `tail` fields are left for the trailing groups.
   */
  lemma CatalogMatchIsWords(s: string, user: string, scheduled: string, ws: seq<string>, alts: seq<string>,
                            tail: nat, c: Choice) returns (m: nat, n: nat)
    requires NameLayout(s, user, scheduled, ws) && tail >= 1 && CatalogMatch(s, alts, tail, c)
    ensures c.p == |user| && SplitOf(alts, ws, c.k, c.l, m, n, tail)
    ensures CatalogGroups(s, alts, tail, c)
            == Groups(scheduled, ScheduledTimestamp(scheduled).value, Dashed(ws[..m]), Dashed(ws[m..m + n]))
  {
    var f := CatalogOfName(s, user, scheduled, ws, alts, tail, c);
    var x;
    m, n, x := AltOkIsWords(s, f.end, ws, alts, tail, c.k, c.l);
    CatalogGroupsOfName(s, user, scheduled, ws, alts, tail, c, f);
    SplitGroups(s, alts, tail, c, f, ws, scheduled, ScheduledTimestamp(scheduled).value, m, n, x);
  }

  /** The groups of a catalog match whose suite and branch are runs of whole fields. */
  lemma SplitGroups(s: string, alts: seq<string>, tail: nat, c: Choice, f: FieldsRead, ws: seq<string>,
                    scheduled: string, ts: Timestamp, m: nat, n: nat, x: string)
    requires CatalogMatch(s, alts, tail, c) && PrefixAt(s, c.p) == Some(f)
    requires f.end + |alts[c.k]| + 1 + c.l <= |s| && x == s[f.end + |alts[c.k]| + 1..f.end + |alts[c.k]| + 1 + c.l]
    requires CatalogGroups(s, alts, tail, c) == Groups(scheduled, ts, alts[c.k], x)
    requires SplitOf(alts, ws, c.k, c.l, m, n, tail) && x == Dashed(ws[m..m + n])
    ensures CatalogGroups(s, alts, tail, c) == Groups(scheduled, ts, Dashed(ws[..m]), Dashed(ws[m..m + n]))
  {
  }

  /** A catalog match of a run name: its prefix stops after the user, and what follows the timestamp. */
  lemma CatalogOfName(s: string, user: string, scheduled: string, ws: seq<string>, alts: seq<string>,
                      tail: nat, c: Choice) returns (f: FieldsRead)
    requires NameLayout(s, user, scheduled, ws) && tail >= 1 && CatalogMatch(s, alts, tail, c)
    ensures c.p == |user| && PrefixAt(s, c.p) == Some(f) && FieldsFrom(s, f.end, ws)
    ensures AltOk(s, alts, tail, f.end, c.k, c.l)
  {
    f := PrefixOfName(s, user, scheduled, ws, c.p);
    CatalogAltOk(s, alts, tail, c, f);
    FieldsMoved(s, FieldsStart(user, scheduled), f.end, ws);
  }

  /** The groups of a catalog match of a run name: its timestamp text, the alternative and the branch text. */
  lemma CatalogGroupsOfName(s: string, user: string, scheduled: string, ws: seq<string>, alts: seq<string>,
                            tail: nat, c: Choice, f: FieldsRead)
    requires NameLayout(s, user, scheduled, ws) && CatalogMatch(s, alts, tail, c)
    requires c.p == |user| && PrefixAt(s, c.p) == Some(f) && AltOk(s, alts, tail, f.end, c.k, c.l)
    ensures CatalogGroups(s, alts, tail, c)
            == Groups(scheduled, ScheduledTimestamp(scheduled).value, alts[c.k],
                      s[f.end + |alts[c.k]| + 1..f.end + |alts[c.k]| + 1 + c.l])
  {
    NameScheduledGroup(s, user, scheduled, ws, f, |alts[c.k]|, c.l);
    CatalogGroupsFrom(s, alts, tail, c, f, scheduled, ScheduledTimestamp(scheduled).value);
  }

  /** The groups of a catalog match whose `scheduled` group and timestamp are known. */
  lemma CatalogGroupsFrom(s: string, alts: seq<string>, tail: nat, c: Choice, f: FieldsRead, scheduled: string, ts: Timestamp)
    requires CatalogMatch(s, alts, tail, c) && PrefixAt(s, c.p) == Some(f)
    requires GroupsAt(s, c.p, f, |alts[c.k]|, c.l).scheduled == scheduled
    requires GroupsAt(s, c.p, f, |alts[c.k]|, c.l).timestamp == ts
    ensures CatalogGroups(s, alts, tail, c)
            == Groups(scheduled, ts, alts[c.k], s[f.end + |alts[c.k]| + 1..f.end + |alts[c.k]| + 1 + c.l])
  {
    CatalogGroupsAt(s, alts, tail, c, f);
    GroupsParts(CatalogGroups(s, alts, tail, c), scheduled, ts, alts[c.k],
                s[f.end + |alts[c.k]| + 1..f.end + |alts[c.k]| + 1 + c.l]);
  }

  /** Groups with the given four parts. */
  lemma GroupsParts(g: Groups, scheduled: string, ts: Timestamp, suite: string, branch: string)
    requires g.scheduled == scheduled && g.timestamp == ts && g.suite == suite && g.branch == branch
    ensures g == Groups(scheduled, ts, suite, branch)
  {
  }

  /** The groups of a catalog match, read at its prefix. */
  lemma CatalogGroupsAt(s: string, alts: seq<string>, tail: nat, c: Choice, f: FieldsRead)
    requires CatalogMatch(s, alts, tail, c) && PrefixAt(s, c.p) == Some(f)
    ensures CatalogGroups(s, alts, tail, c) == GroupsAt(s, c.p, f, |alts[c.k]|, c.l)
  {
  }

  /** Any split into `m` suite fields and `n` branch fields that leaves `tail` fields is a catalog match when the suite is an alternative. */
  lemma WordsCatalogMatch(s: string, user: string, scheduled: string, ws: seq<string>, alts: seq<string>,
                          tail: nat, k: nat, m: nat, n: nat)
    requires NameLayout(s, user, scheduled, ws) && tail >= 1 && k < |alts| && 1 <= m && 1 <= n && m + n + tail <= |ws|
    ensures alts[k] == Dashed(ws[..m]) ==> CatalogMatch(s, alts, tail, Choice(|user|, k, |Dashed(ws[m..m + n])|))
  {
    if alts[k] == Dashed(ws[..m]) {
      var f := PrefixOfName(s, user, scheduled, ws, |user|);
      var l := WordsAltOk(s, f.end, ws, alts, tail, k, m, n);
      AltOkCatalog(s, alts, tail, |user|, k, l, f);
    }
  }

  // ---------------------------------------------------------------------------
  // Which reading wins

  /** `a` spells the first `m` fields for some `m` from 1 to `hi`. */
  predicate Spells(a: string, ws: seq<string>, hi: nat)
    requires hi <= |ws|
  {
    hi > 0 && (a == Dashed(ws[..hi]) || Spells(a, ws, hi - 1))
  }

  lemma {:induction false} SpellsAt(a: string, ws: seq<string>, hi: nat, m: nat)
    requires 1 <= m <= hi <= |ws| && a == Dashed(ws[..m])
    ensures Spells(a, ws, hi)
    decreases hi
  {
    if m < hi {
      SpellsAt(a, ws, hi - 1, m);
    }
  }

  /**
   Alternative `k` spells the first `m` fields, and no earlier alternative
   spells the first `m'` fields for any `m'` from 1 to `hi`: among the suites
   a catalog pattern could take from these fields, `k` is tried first.
   */
  predicate FirstSuite(alts: seq<string>, ws: seq<string>, k: nat, m: nat, hi: nat)
  {
    k < |alts| && 1 <= m <= hi < |ws| && alts[k] == Dashed(ws[..m])
    && forall k' | 0 <= k' < k :: !Spells(alts[k'], ws, hi)
  }

  /** Joining more leading fields gives a longer text. */
  lemma DashedLonger(ws: seq<string>, m: nat, m': nat)
    requires 1 <= m < m' <= |ws|
    ensures |Dashed(ws[..m])| < |Dashed(ws[..m'])|
  {
    DashedPrefix(ws, m, m');
  }

  /** A suite tried no later than the first candidate, spelling at most `hi` fields, is that candidate. */
  lemma SameSuite(alts: seq<string>, ws: seq<string>, k: nat, m0: nat, hi: nat, k': nat, m: nat)
    requires FirstSuite(alts, ws, k, m0, hi) && k' <= k && 1 <= m <= hi && alts[k'] == Dashed(ws[..m])
    ensures k' == k && m == m0
  {
    if k' < k {
      SpellsAt(alts[k'], ws, hi, m);
    } else if m < m0 {
      DashedLonger(ws, m, m0);
    } else if m0 < m {
      DashedLonger(ws, m0, m);
    }
  }

  /** A branch of at most `n0` fields that is no shorter than the branch of `n0` fields has `n0` fields. */
  lemma SameBranch(ws: seq<string>, m: nat, n: nat, n0: nat)
    requires 1 <= n <= n0 && m + n0 <= |ws| && |Dashed(ws[m..m + n])| >= |Dashed(ws[m..m + n0])|
    ensures n == n0
  {
    if n < n0 {
      assert ws[m..][..n] == ws[m..m + n];
      assert ws[m..][..n0] == ws[m..m + n0];
      DashedLonger(ws[m..], n, n0);
    }
  }

  /** A machine-type choice tried no later than the candidate split is the candidate split. */
  lemma ChosenIsCandidate(alts: seq<string>, ws: seq<string>, k: nat, ms: nat, nb: nat, u: nat, c: Choice, m: nat, n: nat)
    requires 1 <= ms && 1 <= nb && ms + nb + 3 == |ws| && FirstSuite(alts, ws, k, ms, ms + nb - 1)
    requires !CatalogBefore(Choice(u, k, |Dashed(ws[ms..ms + nb])|), c)
    requires c.p == u && SplitOf(alts, ws, c.k, c.l, m, n, 3)
    ensures c.k == k && m == ms && n == nb
    ensures Dashed(ws[..m]) == Dashed(ws[..ms]) && Dashed(ws[m..m + n]) == Dashed(ws[ms..ms + nb])
  {
    SameSuite(alts, ws, k, ms, ms + nb - 1, c.k, m);
    SameBranch(ws, m, n, nb);
  }

  /** The same for the corrected order, which also ranks the number `t` of trailing fields. */
  lemma CorrectedChosen(alts: seq<string>, ws: seq<string>, k: nat, ms: nat, nb: nat, u: nat, p: nat,
                        t: nat, c: Choice, m: nat, n: nat)
    requires 1 <= ms && 1 <= nb && ((u == 2 && nb == 1) || u == 3) && ms + nb + u == |ws|
    requires FirstSuite(alts, ws, k, ms, |ws| - 3)
    requires (t == 2 || t == 3) && !CorrectedBefore(u, Choice(p, k, |Dashed(ws[ms..ms + nb])|), t, c)
    requires c.p == p && SplitOf(alts, ws, c.k, c.l, m, n, t)
    ensures c.k == k && t == u && m == ms && n == nb
    ensures Dashed(ws[..m]) == Dashed(ws[..ms]) && Dashed(ws[m..m + n]) == Dashed(ws[ms..ms + nb])
  {
    SameSuite(alts, ws, k, ms, |ws| - 3, c.k, m);
    SameBranch(ws, m, n, nb);
  }

  /** A first catalog match is tried no later than any other catalog match. */
  lemma FirstNotAfter(s: string, alts: seq<string>, tail: nat, c: Choice, d: Choice)
    requires FirstCatalogMatch(s, alts, tail, c) && CatalogMatch(s, alts, tail, d)
    ensures !CatalogBefore(d, c)
  {
  }

  /**
   Where the machine-type pattern reads a run name right: with fields `ws`
   whose first `ms` are the suite, the next `nb` the branch and the last three
   trailing, when the suite is the first alternative among those the pattern
   could take, `_parse_name`'s first pattern gives exactly that suite and
   branch.
   */
  lemma MachineTypeNameParsed(s: string, user: string, scheduled: string, ws: seq<string>, alts: seq<string>,
                              k: nat, ms: nat, nb: nat)
    requires IsRunName(s, user, scheduled, ws) && 1 <= ms && 1 <= nb && ms + nb + 3 == |ws|
    requires FirstSuite(alts, ws, k, ms, ms + nb - 1)
    ensures MatchName(alts, s).Some? && MatchName(alts, s).value.pattern == MachineType
    ensures MatchName(alts, s).value.groups
            == Groups(scheduled, ScheduledTimestamp(scheduled).value, Dashed(ws[..ms]), Dashed(ws[ms..ms + nb]))
  {
    NameParts(s, user, scheduled, ws);
    WordsCatalogMatch(s, user, scheduled, ws, alts, 3, k, ms, nb);
    var c := MatchCatalog(s, alts, 3).value;
    FirstMachineTypeGroups(s, user, scheduled, ws, alts, k, ms, nb, c);
  }

  /**
   What `_parse_name` returns for such a run name: when `strptime` accepts its
   timestamp text, the converted time, the suite fields and the branch fields,
   which the strip leaves unchanged.
   */
  lemma MachineTypeNameParseName(s: string, user: string, scheduled: string, ws: seq<string>,
                                 k: nat, ms: nat, nb: nat, strptime: string -> Option<Jobs.Instant>, t: Jobs.Instant)
    requires IsRunName(s, user, scheduled, ws) && 1 <= ms && 1 <= nb && ms + nb + 3 == |ws|
    requires FirstSuite(Runs.CatalogAlts(), ws, k, ms, ms + nb - 1)
    requires strptime(scheduled) == Some(t)
    ensures Runs.ParseName(s, strptime) == Runs.Parsed(t, Dashed(ws[..ms]), Dashed(ws[ms..ms + nb]))
  {
    MachineTypeNameParsed(s, user, scheduled, ws, Runs.CatalogAlts(), k, ms, nb);
    WordsSlice(ws, 0, ms);
    WordsSlice(ws, ms, ms + nb);
    DashedChars(ws[..ms]);
    DashedChars(ws[ms..ms + nb]);
    Runs.StripKeepsStripped(Dashed(ws[..ms]));
    Runs.StripKeepsStripped(Dashed(ws[ms..ms + nb]));
  }

  /** The groups of the first machine-type match of such a run name. */
  lemma FirstMachineTypeGroups(s: string, user: string, scheduled: string, ws: seq<string>, alts: seq<string>,
                               k: nat, ms: nat, nb: nat, c: Choice)
    requires NameLayout(s, user, scheduled, ws) && 1 <= ms && 1 <= nb && ms + nb + 3 == |ws|
    requires FirstSuite(alts, ws, k, ms, ms + nb - 1) && FirstCatalogMatch(s, alts, 3, c)
    ensures CatalogGroups(s, alts, 3, c)
            == Groups(scheduled, ScheduledTimestamp(scheduled).value, Dashed(ws[..ms]), Dashed(ws[ms..ms + nb]))
  {
    WordsCatalogMatch(s, user, scheduled, ws, alts, 3, k, ms, nb);
    var c0 := Choice(|user|, k, |Dashed(ws[ms..ms + nb])|);
    var m, n := CatalogMatchIsWords(s, user, scheduled, ws, alts, 3, c);
    FirstNotAfter(s, alts, 3, c, c0);
    ChosenIsCandidate(alts, ws, k, ms, nb, |user|, c, m, n);
  }

  /**
   The reading the shape promises is lost: with five fields, when the first
   alone is a catalog alternative, the machine-type pattern matches with the
   first field as suite and the second as branch, even when the first two
   joined are an alternative too (and, with two trailing fields, the suite).
   */
  lemma ShorterSuiteWins(s: string, user: string, scheduled: string, ws: seq<string>, alts: seq<string>)
    requires IsRunName(s, user, scheduled, ws) && |ws| == 5 && ws[0] in alts
    ensures MatchName(alts, s).Some? && MatchName(alts, s).value.pattern == MachineType
    ensures MatchName(alts, s).value.groups == Groups(scheduled, ScheduledTimestamp(scheduled).value, ws[0], ws[1])
    ensures MatchName(alts, s).value.groups.suite != Dashed(ws[..2])
  {
    var k := FirstIndex(alts, ws[0]);
    assert ws[..1] == [ws[0]];
    MachineTypeNameParsed(s, user, scheduled, ws, alts, k, 1, 1);
    assert ws[1..2] == [ws[1]];
    DashedLonger(ws, 1, 2);
  }

  /** The first position of `x` in `xs`. */
  function FirstIndex(xs: seq<string>, x: string): (k: nat)
    requires x in xs
    ensures k < |xs| && xs[k] == x && forall k' | 0 <= k' < k :: xs[k'] != x
  {
    if xs[0] == x then 0 else 1 + FirstIndex(xs[1..], x)
  }

  /** The corrected search picks a catalog match that is tried no later than any catalog match `d`. */
  lemma CorrectedPicks(alts: seq<string>, s: string, u: nat, d: Choice) returns (t: nat, c: Choice)
    requires (u == 2 || u == 3) && CatalogMatch(s, alts, u, d)
    ensures FirstCorrectedMatch(s, alts, t, c) && !CorrectedBefore(u, d, t, c)
    ensures MatchNameCorrected(alts, s).Some? && MatchNameCorrected(alts, s).value.pattern != Backup
    ensures MatchNameCorrected(alts, s).value.choice == c && Tail(MatchNameCorrected(alts, s).value.pattern) == t
    ensures MatchNameCorrected(alts, s).value.groups == CatalogGroups(s, alts, t, c)
  {
    var r := MatchNameCorrected(alts, s).value;
    t, c := Tail(r.pattern), r.choice;
  }

  /**
   The corrected order reads a run name right: with fields `ws` whose first
   `ms` are the suite, the next `nb` the branch, and the last three trailing
   (a machine type) or two after a one-field branch, when the suite is the
   first alternative among those the patterns could take, the suite and
   branch are exactly those fields.
   */
  lemma CorrectedNameParsed(s: string, user: string, scheduled: string, ws: seq<string>, alts: seq<string>,
                            k: nat, ms: nat, nb: nat)
    requires IsRunName(s, user, scheduled, ws) && 1 <= ms && 1 <= nb
    requires ms + nb + 3 == |ws| || (nb == 1 && ms + 3 == |ws|)
    requires FirstSuite(alts, ws, k, ms, |ws| - 3)
    ensures MatchNameCorrected(alts, s).Some?
    ensures MatchNameCorrected(alts, s).value.pattern == if ms + nb + 3 == |ws| then MachineType else NoMachineType
    ensures MatchNameCorrected(alts, s).value.groups
            == Groups(scheduled, ScheduledTimestamp(scheduled).value, Dashed(ws[..ms]), Dashed(ws[ms..ms + nb]))
  {
    var u := |ws| - ms - nb;
    NameParts(s, user, scheduled, ws);
    WordsCatalogMatch(s, user, scheduled, ws, alts, u, k, ms, nb);
    var c0 := Choice(|user|, k, |Dashed(ws[ms..ms + nb])|);
    var t, c := CorrectedPicks(alts, s, u, c0);
    var m, n := CatalogMatchIsWords(s, user, scheduled, ws, alts, t, c);
    CorrectedChosen(alts, ws, k, ms, nb, u, |user|, t, c, m, n);
  }
}
