/**
 What `re.match` does with the three run-name patterns of
 paddles/models/runs.py (the two catalog regexes of `get_name_regexes` and
 `Run.backup_name_regex`), without a general regex engine.

 `re.match` anchors a pattern at the start of the name only. It explores the
 ways of matching in backtracking order and returns the first that succeeds:

   - the leading `.*` takes the longest prefix first (`p`, the position of
     the `-` after it, tried from the largest down);
   - the timestamp group then has at most one way to match
     (Timestamps.TimestampReadIsSpan);
   - a catalog pattern tries the suite alternatives in catalog order (`k`);
     the backup pattern's greedy suite `.*` tries the longest suite first
     (`k` is then the suite length);
   - the greedy branch `.*` tries the longest branch first (`l`);
   - the trailing lazy `-.*?` groups only decide whether the rest succeeds,
     so the captured groups depend on the choice `(p, k, l)` alone.

 Each search below is proved to return the first choice, in that order, that
 the declarative predicate of its pattern accepts. `.` is any character but a
 newline, as without `re.DOTALL`.
 */
module NameMatch {
  import opened Wrappers
  import opened Timestamps

  predicate Dot(c: char)
  {
    c != '\n'
  }

  /** `s[i..j]` can be matched by `.*`. */
  predicate Dots(s: string, i: nat, j: nat)
    requires i <= j <= |s|
  {
    forall m | i <= m < j :: Dot(s[m])
  }

  /** `-.*?` repeated `n` times can match from `i` (anything may follow). */
  predicate LazyTail(s: string, i: nat, n: nat)
    decreases n, 1
  {
    n == 0 || (i < |s| && s[i] == '-' && exists j | i + 1 <= j <= |s| :: LazyGroup(s, i, j, n))
  }

  /** The first of `n` lazy groups is `s[i..j]`, and the other `n - 1` match from `j`. */
  predicate LazyGroup(s: string, i: nat, j: nat, n: nat)
    requires n > 0
    decreases n, 0
  {
    i + 1 <= j <= |s| && Dots(s, i + 1, j) && LazyTail(s, j, n - 1)
  }

  /** One more trailing group asks for more: what `-.*?` repeated `n + 1` times matches, `n` times matches too. */
  lemma {:induction false} LazyTailFewer(s: string, i: nat, n: nat)
    requires LazyTail(s, i, n + 1)
    ensures LazyTail(s, i, n)
    decreases n
  {
    if n > 0 {
      var j :| i + 1 <= j <= |s| && LazyGroup(s, i, j, n + 1);
      assert LazyTail(s, j, (n - 1) + 1);
      LazyTailFewer(s, j, n - 1);
      assert LazyGroup(s, i, j, n);
    }
  }

  /** The leading `.*-` ends with the `-` at `p`, and the timestamp group and its `-` follow. */
  function PrefixAt(s: string, p: nat): (r: Option<FieldsRead>)
    ensures r.Some? ==> p < |s| && p + 1 < r.value.end <= |s| && |r.value.values| == 6
  {
    if p < |s| && Dots(s, 0, p) && s[p] == '-' then ReadFields(s, p + 1, TimestampFields) else None
  }

  /** A greedy branch `.*` of length `l` from `b`, then the trailing groups. */
  predicate BranchOk(s: string, tail: nat, b: nat, l: nat)
  {
    b + l <= |s| && Dots(s, b, b + l) && LazyTail(s, b + l, tail)
  }

  /** The longest branch of at most `l` characters from `b` after which the trailing groups match. */
  function LongestBranch(s: string, tail: nat, b: nat, l: nat): (r: Option<nat>)
    ensures r.Some? ==> r.value <= l && BranchOk(s, tail, b, r.value)
    ensures r.Some? ==> forall l': nat | r.value < l' <= l :: !BranchOk(s, tail, b, l')
    ensures r.None? ==> forall l': nat | l' <= l :: !BranchOk(s, tail, b, l')
    decreases l
  {
    if BranchOk(s, tail, b, l) then Some(l)
    else if l == 0 then None
    else LongestBranch(s, tail, b, l - 1)
  }

  /** A choice of backtracking positions: the prefix's `-`, the suite alternative or length, the branch length. */
  datatype Choice = Choice(p: nat, k: nat, l: nat)

  // ---------------------------------------------------------------------------
  // The catalog patterns: .*-(?P<scheduled>TS)-(?P<suite>(A0|A1|...))-(?P<branch>.*) then `tail` lazy groups

  /** Alternative `a` matches at `e` and is followed by `-`. */
  predicate SuiteAt(s: string, e: nat, a: string)
  {
    e + |a| < |s| && s[e..e + |a|] == a && s[e + |a|] == '-'
  }

  /** After the timestamp group ends at `e`: alternative `k`, then branch length `l`, then the trailing groups. */
  predicate AltOk(s: string, alts: seq<string>, tail: nat, e: nat, k: nat, l: nat)
  {
    k < |alts| && SuiteAt(s, e, alts[k]) && BranchOk(s, tail, e + |alts[k]| + 1, l)
  }

  /** The catalog pattern with `tail` trailing groups matches `s` by choice `c`. */
  predicate CatalogMatch(s: string, alts: seq<string>, tail: nat, c: Choice)
  {
    PrefixAt(s, c.p).Some? && AltOk(s, alts, tail, PrefixAt(s, c.p).value.end, c.k, c.l)
  }

  /** `c` is tried before `d`: longer prefix, then earlier alternative, then longer branch. */
  predicate CatalogBefore(c: Choice, d: Choice)
  {
    c.p > d.p || (c.p == d.p && (c.k < d.k || (c.k == d.k && c.l > d.l)))
  }

  /** The match `re.match` reports: the first choice that succeeds. */
  ghost predicate FirstCatalogMatch(s: string, alts: seq<string>, tail: nat, c: Choice)
  {
    CatalogMatch(s, alts, tail, c) && forall d: Choice | CatalogBefore(d, c) :: !CatalogMatch(s, alts, tail, d)
  }

  /** The first alternative from `k` on that matches at `e`, with its longest branch. */
  function FirstAlternative(s: string, alts: seq<string>, tail: nat, e: nat, k: nat): (r: Option<(nat, nat)>)
    requires k <= |alts|
    ensures r.Some? ==> k <= r.value.0 && AltOk(s, alts, tail, e, r.value.0, r.value.1)
    ensures r.Some? ==> forall l: nat | l > r.value.1 :: !AltOk(s, alts, tail, e, r.value.0, l)
    ensures r.Some? ==> forall k': nat, l: nat | k <= k' < r.value.0 :: !AltOk(s, alts, tail, e, k', l)
    ensures r.None? ==> forall k': nat, l: nat | k <= k' :: !AltOk(s, alts, tail, e, k', l)
    decreases |alts| - k
  {
    if k == |alts| then None
    else if SuiteAt(s, e, alts[k]) then
      var b := e + |alts[k]| + 1;
      match LongestBranch(s, tail, b, |s| - b)
      case Some(l) => Some((k, l))
      case None => FirstAlternative(s, alts, tail, e, k + 1)
    else FirstAlternative(s, alts, tail, e, k + 1)
  }

  /** The first choice with the prefix's `-` at `p`. */
  function CatalogAt(s: string, alts: seq<string>, tail: nat, p: nat): (r: Option<(nat, nat)>)
    ensures r.Some? ==> CatalogMatch(s, alts, tail, Choice(p, r.value.0, r.value.1))
    ensures r.Some? ==> forall c: Choice | c.p == p && CatalogBefore(c, Choice(p, r.value.0, r.value.1)) ::
                          !CatalogMatch(s, alts, tail, c)
    ensures r.None? ==> forall c: Choice | c.p == p :: !CatalogMatch(s, alts, tail, c)
  {
    match PrefixAt(s, p)
    case Some(f) => FirstAlternative(s, alts, tail, f.end, 0)
    case None => None
  }

  /** Try prefix positions `p`, `p - 1`, ..., `0` in turn. */
  function SearchCatalog(s: string, alts: seq<string>, tail: nat, p: nat): (r: Option<Choice>)
    ensures r.Some? ==> r.value.p <= p && CatalogMatch(s, alts, tail, r.value)
    ensures r.Some? ==> forall c: Choice | c.p <= p && CatalogBefore(c, r.value) :: !CatalogMatch(s, alts, tail, c)
    ensures r.None? ==> forall c: Choice | c.p <= p :: !CatalogMatch(s, alts, tail, c)
    decreases p
  {
    var here := CatalogAt(s, alts, tail, p);
    if here.Some? then Some(Choice(p, here.value.0, here.value.1))
    else if p == 0 then None
    else SearchCatalog(s, alts, tail, p - 1)
  }

  /** `re.match` of a catalog pattern: its first successful choice, or `None` if it has none. */
  function MatchCatalog(s: string, alts: seq<string>, tail: nat): (r: Option<Choice>)
    ensures r.Some? ==> FirstCatalogMatch(s, alts, tail, r.value)
    ensures r.None? ==> forall c: Choice :: !CatalogMatch(s, alts, tail, c)
  {
    SearchCatalog(s, alts, tail, |s|)
  }

  /** Whatever the machine-type pattern (three trailing groups) accepts, the one without (two) accepts. */
  lemma MachineTypeImpliesNoMachineType(s: string, alts: seq<string>, c: Choice)
    requires CatalogMatch(s, alts, 3, c)
    ensures CatalogMatch(s, alts, 2, c)
  {
    var e := PrefixAt(s, c.p).value.end;
    AltOkFewer(s, alts, 2, e, c.k, c.l);
  }

  lemma AltOkFewer(s: string, alts: seq<string>, n: nat, e: nat, k: nat, l: nat)
    requires AltOk(s, alts, n + 1, e, k, l)
    ensures AltOk(s, alts, n, e, k, l)
  {
    BranchOkFewer(s, n, e + |alts[k]| + 1, l);
  }

  lemma BranchOkFewer(s: string, n: nat, b: nat, l: nat)
    requires BranchOk(s, n + 1, b, l)
    ensures BranchOk(s, n, b, l)
  {
    LazyTailFewer(s, b + l, n);
  }

  // ---------------------------------------------------------------------------
  // The backup pattern: .*-(?P<scheduled>TS)-(?P<suite>.*)-(?P<branch>.*)-.*?-.*?-.*?

  /** After the timestamp group ends at `e`: a suite of length `sl`, `-`, a branch of length `l`, three trailing groups. */
  predicate BackupRest(s: string, e: nat, sl: nat, l: nat)
  {
    e + sl < |s| && Dots(s, e, e + sl) && s[e + sl] == '-' && BranchOk(s, 3, e + sl + 1, l)
  }

  predicate BackupMatch(s: string, c: Choice)
  {
    PrefixAt(s, c.p).Some? && BackupRest(s, PrefixAt(s, c.p).value.end, c.k, c.l)
  }

  /** `c` is tried before `d`: longer prefix, then longer suite, then longer branch. */
  predicate BackupBefore(c: Choice, d: Choice)
  {
    c.p > d.p || (c.p == d.p && (c.k > d.k || (c.k == d.k && c.l > d.l)))
  }

  ghost predicate FirstBackupMatch(s: string, c: Choice)
  {
    BackupMatch(s, c) && forall d: Choice | BackupBefore(d, c) :: !BackupMatch(s, d)
  }

  /** The longest branch after a suite of length `sl` from `e` that lets the rest match. */
  function SuiteOfLength(s: string, e: nat, sl: nat): (r: Option<nat>)
    ensures r.Some? ==> BackupRest(s, e, sl, r.value)
    ensures r.Some? ==> forall l: nat | l > r.value :: !BackupRest(s, e, sl, l)
    ensures r.None? ==> forall l: nat :: !BackupRest(s, e, sl, l)
  {
    if e + sl < |s| && Dots(s, e, e + sl) && s[e + sl] == '-' then
      var b := e + sl + 1;
      LongestBranch(s, 3, b, |s| - b)
    else None
  }

  /** The longest suite of at most `sl` characters from `e` that lets the rest match, with its longest branch. */
  function LongestSuite(s: string, e: nat, sl: nat): (r: Option<(nat, nat)>)
    ensures r.Some? ==> r.value.0 <= sl && BackupRest(s, e, r.value.0, r.value.1)
    ensures r.Some? ==> forall l: nat | l > r.value.1 :: !BackupRest(s, e, r.value.0, l)
    ensures r.Some? ==> forall k: nat, l: nat | r.value.0 < k <= sl :: !BackupRest(s, e, k, l)
    ensures r.None? ==> forall k: nat, l: nat | k <= sl :: !BackupRest(s, e, k, l)
    decreases sl
  {
    var found := SuiteOfLength(s, e, sl);
    if found.Some? then Some((sl, found.value))
    else if sl == 0 then None
    else LongestSuite(s, e, sl - 1)
  }

  /** The first backup choice with the prefix's `-` at `p`. */
  function BackupAt(s: string, p: nat): (r: Option<(nat, nat)>)
    ensures r.Some? ==> BackupMatch(s, Choice(p, r.value.0, r.value.1))
    ensures r.Some? ==> forall c: Choice | c.p == p && BackupBefore(c, Choice(p, r.value.0, r.value.1)) :: !BackupMatch(s, c)
    ensures r.None? ==> forall c: Choice | c.p == p :: !BackupMatch(s, c)
  {
    match PrefixAt(s, p)
    case Some(f) => LongestSuite(s, f.end, |s| - f.end)
    case None => None
  }

  /** Try prefix positions `p`, `p - 1`, ..., `0` in turn. */
  function SearchBackup(s: string, p: nat): (r: Option<Choice>)
    ensures r.Some? ==> r.value.p <= p && BackupMatch(s, r.value)
    ensures r.Some? ==> forall c: Choice | c.p <= p && BackupBefore(c, r.value) :: !BackupMatch(s, c)
    ensures r.None? ==> forall c: Choice | c.p <= p :: !BackupMatch(s, c)
    decreases p
  {
    var here := BackupAt(s, p);
    if here.Some? then Some(Choice(p, here.value.0, here.value.1))
    else if p == 0 then None
    else SearchBackup(s, p - 1)
  }

  /** `re.match` of the backup pattern. */
  function MatchBackup(s: string): (r: Option<Choice>)
    ensures r.Some? ==> FirstBackupMatch(s, r.value)
    ensures r.None? ==> forall c: Choice :: !BackupMatch(s, c)
  {
    SearchBackup(s, |s|)
  }

  // ---------------------------------------------------------------------------
  // Uniqueness: the backtracking order is total, so "the first match" is one match

  lemma FirstCatalogMatchUnique(s: string, alts: seq<string>, tail: nat, c: Choice, d: Choice)
    requires FirstCatalogMatch(s, alts, tail, c) && FirstCatalogMatch(s, alts, tail, d)
    ensures c == d
  {
  }

  lemma FirstBackupMatchUnique(s: string, c: Choice, d: Choice)
    requires FirstBackupMatch(s, c) && FirstBackupMatch(s, d)
    ensures c == d
  {
  }

  // ---------------------------------------------------------------------------
  // The groups of a match and the or-chain of `_parse_name`

  /** `match.groupdict()` together with the six integers of `scheduled`. */
  datatype Groups = Groups(scheduled: string, timestamp: Timestamp, suite: string, branch: string)

  /**
   The groups of a match whose prefix `-` is at `p` and whose timestamp reads
   `f`, with a suite of length `sl` and a branch of length `l`. The
   `scheduled` group followed by its `-` is the text the timestamp fields
   span, and read on its own it gives the six integers of `timestamp`.
   */
  function GroupsAt(s: string, p: nat, f: FieldsRead, sl: nat, l: nat): (g: Groups)
    requires PrefixAt(s, p) == Some(f)
    requires f.end + sl + 1 + l <= |s|
    ensures g.scheduled + "-" == s[p + 1..f.end]
    ensures ScheduledTimestamp(g.scheduled) == Some(g.timestamp)
    ensures g.suite == s[f.end..f.end + sl]
    ensures g.branch == s[f.end + sl + 1..f.end + sl + 1 + l]
  {
    ScheduledGroup(s, p, f);
    Groups(s[p + 1..f.end - 1], ToTimestamp(f.values), s[f.end..f.end + sl], s[f.end + sl + 1..f.end + sl + 1 + l])
  }

  /** The `scheduled` group of a prefix ending at `p`, as the timestamp regex and the reading of its text see it. */
  lemma ScheduledGroup(s: string, p: nat, f: FieldsRead)
    requires PrefixAt(s, p) == Some(f)
    ensures s[p + 1..f.end - 1] + "-" == s[p + 1..f.end]
    ensures ScheduledTimestamp(s[p + 1..f.end - 1]) == Some(ToTimestamp(f.values))
  {
    assert ReadFields(s, p + 1, TimestampFields) == Some(f);
    TimestampInName(s, p + 1, f);
  }

  /** Which of the three patterns produced a match. */
  datatype Pattern = MachineType | NoMachineType | Backup

  /** A successful `re.match`: the pattern, its backtracking choice and its groups. */
  datatype NameMatch = NameMatch(pattern: Pattern, choice: Choice, groups: Groups)

  /** The catalog pattern `pattern` stands for, by its number of trailing groups. */
  function Tail(pattern: Pattern): nat
  {
    if pattern == NoMachineType then 2 else 3
  }

  /** The groups of a catalog match: the suite group is the chosen alternative. */
  function CatalogGroups(s: string, alts: seq<string>, tail: nat, c: Choice): (g: Groups)
    requires CatalogMatch(s, alts, tail, c)
    ensures g.suite == alts[c.k]
  {
    GroupsAt(s, c.p, PrefixAt(s, c.p).value, |alts[c.k]|, c.l)
  }

  function BackupGroups(s: string, c: Choice): Groups
    requires BackupMatch(s, c)
  {
    GroupsAt(s, c.p, PrefixAt(s, c.p).value, c.k, c.l)
  }

  /**
   `re.match(name_regexes[0], name) or re.match(name_regexes[1], name) or
   re.match(backup_name_regex, name)`, for catalog alternatives `alts`.
   */
  function MatchName(alts: seq<string>, s: string): (r: Option<NameMatch>)
    ensures r.Some? && r.value.pattern != Backup ==>
              FirstCatalogMatch(s, alts, Tail(r.value.pattern), r.value.choice)
              && r.value.groups == CatalogGroups(s, alts, Tail(r.value.pattern), r.value.choice)
    ensures r.Some? && r.value.pattern == Backup ==>
              FirstBackupMatch(s, r.value.choice) && r.value.groups == BackupGroups(s, r.value.choice)
    ensures (r.None? || r.value.pattern != MachineType) ==> forall c: Choice :: !CatalogMatch(s, alts, 3, c)
    ensures (r.None? || r.value.pattern == Backup) ==> forall c: Choice :: !CatalogMatch(s, alts, 2, c)
    ensures r.None? ==> forall c: Choice :: !BackupMatch(s, c)
  {
    match MatchCatalog(s, alts, 3)
    case Some(c) => Some(NameMatch(MachineType, c, CatalogGroups(s, alts, 3, c)))
    case None =>
      match MatchCatalog(s, alts, 2)
      case Some(c) => Some(NameMatch(NoMachineType, c, CatalogGroups(s, alts, 2, c)))
      case None =>
        match MatchBackup(s)
        case Some(c) => Some(NameMatch(Backup, c, BackupGroups(s, c)))
        case None => None
  }

  // ---------------------------------------------------------------------------
  // The evidently intended order of the two catalog patterns

  /**
   Tail `t` with choice `c` is tried before tail `u` with choice `d` when the
   catalog patterns are tried per prefix and alternative: longer prefix, then
   earlier alternative, then the machine-type pattern (three trailing groups)
   before the one without, then longer branch.
   */
  predicate CorrectedBefore(t: nat, c: Choice, u: nat, d: Choice)
  {
    c.p > d.p || (c.p == d.p && (c.k < d.k || (c.k == d.k && (t > u || (t == u && c.l > d.l)))))
  }

  /** Tail `t` with choice `c` is the first catalog match in the corrected order. */
  ghost predicate FirstCorrectedMatch(s: string, alts: seq<string>, t: nat, c: Choice)
  {
    (t == 2 || t == 3) && CatalogMatch(s, alts, t, c)
    && forall u: nat, d: Choice | (u == 2 || u == 3) && CorrectedBefore(u, d, t, c) :: !CatalogMatch(s, alts, u, d)
  }

  /** Whatever the machine-type pattern accepts, for every choice, the pattern without accepts. */
  lemma MachineTypeMatchesFewer(s: string, alts: seq<string>)
    ensures forall c: Choice | CatalogMatch(s, alts, 3, c) :: CatalogMatch(s, alts, 2, c)
  {
    forall c: Choice | CatalogMatch(s, alts, 3, c) ensures CatalogMatch(s, alts, 2, c) {
      MachineTypeImpliesNoMachineType(s, alts, c);
    }
  }

  /** The longest branch for three trailing groups after the suite of a catalog choice, if any. */
  function MachineTypeBranch(s: string, alts: seq<string>, c: Choice): (r: Option<nat>)
    requires CatalogMatch(s, alts, 2, c)
    ensures r.Some? ==> CatalogMatch(s, alts, 3, Choice(c.p, c.k, r.value))
    ensures r.Some? ==> forall l: nat | l > r.value :: !CatalogMatch(s, alts, 3, Choice(c.p, c.k, l))
    ensures r.None? ==> forall l: nat :: !CatalogMatch(s, alts, 3, Choice(c.p, c.k, l))
  {
    var f := PrefixAt(s, c.p).value;
    var b := f.end + |alts[c.k]| + 1;
    var r := LongestBranch(s, 3, b, |s| - b);
    BranchChoices(s, alts, c, f, b, r);
    r
  }

  lemma BranchChoices(s: string, alts: seq<string>, c: Choice, f: FieldsRead, b: nat, r: Option<nat>)
    requires CatalogMatch(s, alts, 2, c) && PrefixAt(s, c.p) == Some(f) && b == f.end + |alts[c.k]| + 1
    requires r == LongestBranch(s, 3, b, |s| - b)
    ensures r.Some? ==> CatalogMatch(s, alts, 3, Choice(c.p, c.k, r.value))
    ensures r.Some? ==> forall l: nat | l > r.value :: !CatalogMatch(s, alts, 3, Choice(c.p, c.k, l))
    ensures r.None? ==> forall l: nat :: !CatalogMatch(s, alts, 3, Choice(c.p, c.k, l))
  {
    CatalogSuffix(s, alts, 2, c);
    AltBranch(s, alts, f.end, c.k, b, r);
    CatalogAtPrefix(s, alts, 3, c.p, f);
  }

  /** With the prefix fixed, a catalog match is a match of what follows the timestamp. */
  lemma CatalogAtPrefix(s: string, alts: seq<string>, tail: nat, p: nat, f: FieldsRead)
    requires PrefixAt(s, p) == Some(f)
    ensures forall k: nat, l: nat :: CatalogMatch(s, alts, tail, Choice(p, k, l)) == AltOk(s, alts, tail, f.end, k, l)
  {
  }

  lemma CatalogSuffix(s: string, alts: seq<string>, tail: nat, c: Choice)
    requires CatalogMatch(s, alts, tail, c)
    ensures c.k < |alts| && SuiteAt(s, PrefixAt(s, c.p).value.end, alts[c.k])
  {
  }

  /** The longest branch for three trailing groups after alternative `k`, read against `AltOk`. */
  lemma AltBranch(s: string, alts: seq<string>, e: nat, k: nat, b: nat, r: Option<nat>)
    requires k < |alts| && SuiteAt(s, e, alts[k]) && b == e + |alts[k]| + 1
    requires r == LongestBranch(s, 3, b, |s| - b)
    ensures r.Some? ==> AltOk(s, alts, 3, e, k, r.value)
    ensures r.Some? ==> forall l: nat | l > r.value :: !AltOk(s, alts, 3, e, k, l)
    ensures r.None? ==> forall l: nat :: !AltOk(s, alts, 3, e, k, l)
  {
  }

  /** The first match without a machine type fixes the prefix and alternative; the longest machine-type branch there comes first. */
  lemma CorrectedMachineType(s: string, alts: seq<string>, c: Choice, l: nat)
    requires FirstCatalogMatch(s, alts, 2, c) && CatalogMatch(s, alts, 3, Choice(c.p, c.k, l))
    requires forall l': nat | l' > l :: !CatalogMatch(s, alts, 3, Choice(c.p, c.k, l'))
    ensures FirstCorrectedMatch(s, alts, 3, Choice(c.p, c.k, l))
  {
    MachineTypeMatchesFewer(s, alts);
  }

  /** The first match without a machine type, where no machine-type branch follows its alternative, comes first. */
  lemma CorrectedNoMachineType(s: string, alts: seq<string>, c: Choice)
    requires FirstCatalogMatch(s, alts, 2, c)
    requires forall l: nat :: !CatalogMatch(s, alts, 3, Choice(c.p, c.k, l))
    ensures FirstCorrectedMatch(s, alts, 2, c)
  {
    MachineTypeMatchesFewer(s, alts);
  }

  /**
   `_parse_name` as evidently intended: both catalog patterns searched
   together in the corrected order, then the backup pattern.
   */
  function MatchNameCorrected(alts: seq<string>, s: string): (r: Option<NameMatch>)
    ensures r.Some? && r.value.pattern != Backup ==>
              FirstCorrectedMatch(s, alts, Tail(r.value.pattern), r.value.choice)
              && r.value.groups == CatalogGroups(s, alts, Tail(r.value.pattern), r.value.choice)
    ensures r.Some? && r.value.pattern == Backup ==>
              FirstBackupMatch(s, r.value.choice) && r.value.groups == BackupGroups(s, r.value.choice)
    ensures (r.None? || r.value.pattern == Backup) ==>
              forall c: Choice :: !CatalogMatch(s, alts, 3, c) && !CatalogMatch(s, alts, 2, c)
    ensures r.None? ==> forall c: Choice :: !BackupMatch(s, c)
  {
    MachineTypeMatchesFewer(s, alts);
    match MatchCatalog(s, alts, 2)
    case Some(c) =>
      var longest := MachineTypeBranch(s, alts, c);
      if longest.Some? then
        var d := Choice(c.p, c.k, longest.value);
        CorrectedMachineType(s, alts, c, longest.value);
        Some(NameMatch(MachineType, d, CatalogGroups(s, alts, 3, d)))
      else
        CorrectedNoMachineType(s, alts, c);
        Some(NameMatch(NoMachineType, c, CatalogGroups(s, alts, 2, c)))
    case None =>
      match MatchBackup(s)
      case Some(c) => Some(NameMatch(Backup, c, BackupGroups(s, c)))
      case None => None
  }

  /** None of the three patterns matches `s`. */
  ghost predicate NoneMatches(alts: seq<string>, s: string)
  {
    forall c: Choice :: !CatalogMatch(s, alts, 3, c) && !CatalogMatch(s, alts, 2, c) && !BackupMatch(s, c)
  }

  /** The or-chain fails exactly when none of the three patterns matches. */
  lemma MatchNameNone(alts: seq<string>, s: string)
    ensures MatchName(alts, s).None? <==> NoneMatches(alts, s)
  {
    var r := MatchName(alts, s);
    if r.Some? {
      var c := r.value.choice;
      if r.value.pattern == MachineType {
        assert CatalogMatch(s, alts, 3, c);
      } else if r.value.pattern == NoMachineType {
        assert CatalogMatch(s, alts, 2, c);
      } else {
        assert BackupMatch(s, c);
      }
    }
  }

  /** A catalog pattern's suite group is one of the catalog's alternatives. */
  lemma CatalogSuiteIsAlternative(alts: seq<string>, s: string)
    requires MatchName(alts, s).Some? && MatchName(alts, s).value.pattern != Backup
    ensures MatchName(alts, s).value.groups.suite in alts
  {
    var m := MatchName(alts, s).value;
    assert m.groups.suite == alts[m.choice.k];
  }
}
