/**
 The regular-expression texts a run name is parsed with (paddles/models/runs.py,
 `suite_names`, `get_name_regexes`, `Run.timestamp_regex`, `Run.backup_name_regex`).

 `str.format` is modelled for templates whose only braces are the two
 replacement fields `{time}` and `{suites}`; `'|'.join` is modelled together
 with the split that reads an alternation of plain names back out of it.
 */
module NameRegexes {

  /** The catalog of known suites, in the order the alternation tries them. */
  const SuiteNames: seq<string> := [
    "big", "ceph-deploy", "dummy", "experimental", "fs", "hadoop", "iozone", "kcephfs", "krbd", "marginal",
    "mixed-clients", "nfs", "powercycle", "rados", "rbd", "rgw", "smoke", "stress", "tgt", "upgrade-cuttlefish",
    "upgrade-dumpling", "upgrade-fs", "upgrade-mixed-cluster", "upgrade-mixed-mons", "upgrade-parallel",
    "upgrade-rados-double", "upgrade-rados", "upgrade-rbd-double", "upgrade-rbd", "upgrade-rgw-double",
    "upgrade-rgw", "upgrade-small", "upgrade"]

  const TimestampRegex: string := "[0-9]{1,4}-[0-9]{1,2}-[0-9]{1,2}_[0-9]{1,2}:[0-9]{1,2}:[0-9]{1,2}"

  /** The template without a machine type, written as its literal text cut at the two fields. */
  const TemplateNoMachineType: string :=
    ".*-(?P<scheduled>" + "{time}" + ")-(?P<suite>" + "{suites}" + ")-(?P<branch>.*)-.*?-.*?"

  const TemplateMachineType: string := TemplateNoMachineType + "-.*?"

  /** The generic fallback: the timestamp regex interpolated with `%s`. */
  const BackupNameRegex: string :=
    ".*-(?P<scheduled>" + TimestampRegex + ")-(?P<suite>.*)-(?P<branch>.*)-.*?-.*?-.*?"

  // ---------------------------------------------------------------------------
  // str.format over the two named fields

  /** `t` starts with the replacement field `{name}`. */
  predicate FieldAt(name: string, t: string)
  {
    |name| + 2 <= |t| && t[0] == '{' && t[|name| + 1] == '}' && forall i | 0 <= i < |name| :: t[i + 1] == name[i]
  }

  predicate BraceFree(x: string)
  {
    forall i | 0 <= i < |x| :: x[i] != '{' && x[i] != '}'
  }

  /** A template `str.format` accepts with keyword arguments `time` and `suites`. */
  predicate IsTemplate(t: string)
    decreases |t|
  {
    if t == [] then true
    else if t[0] != '{' then t[0] != '}' && IsTemplate(t[1..])
    else if FieldAt("time", t) then IsTemplate(t[6..])
    else FieldAt("suites", t) && IsTemplate(t[8..])
  }

  /** `t.format(time=time, suites=suites)`. */
  function Format(t: string, time: string, suites: string): string
    requires IsTemplate(t)
    decreases |t|
  {
    if t == [] then []
    else if t[0] != '{' then [t[0]] + Format(t[1..], time, suites)
    else if FieldAt("time", t) then time + Format(t[6..], time, suites)
    else suites + Format(t[8..], time, suites)
  }

  /** Text without braces is a template that formats to itself. */
  lemma {:induction false} FormatBraceFree(x: string, time: string, suites: string)
    requires BraceFree(x)
    ensures IsTemplate(x) && Format(x, time, suites) == x
    decreases |x|
  {
    if x != [] {
      assert BraceFree(x[1..]) by {
        forall i | 0 <= i < |x[1..]| ensures x[1..][i] != '{' && x[1..][i] != '}' { assert x[1..][i] == x[i + 1]; }
      }
      FormatBraceFree(x[1..], time, suites);
      assert [x[0]] + x[1..] == x;
    }
  }

  /** Formatting distributes over the concatenation of two templates. */
  lemma {:induction false} FormatConcat(a: string, b: string, time: string, suites: string)
    requires IsTemplate(a) && IsTemplate(b)
    ensures IsTemplate(a + b)
    ensures Format(a + b, time, suites) == Format(a, time, suites) + Format(b, time, suites)
    decreases |a|
  {
    if a == [] {
      assert a + b == b;
    } else if a[0] != '{' {
      FormatConcat(a[1..], b, time, suites);
      FormatConcatChar(a, b, time, suites);
    } else if FieldAt("time", a) {
      FormatConcat(a[6..], b, time, suites);
      FormatConcatTime(a, b, time, suites);
    } else {
      FormatConcat(a[8..], b, time, suites);
      FormatConcatSuites(a, b, time, suites);
    }
  }

  /** The step of `FormatConcat` for a template that starts with a plain character. */
  lemma FormatConcatChar(a: string, b: string, time: string, suites: string)
    requires a != [] && a[0] != '{' && a[0] != '}' && IsTemplate(a[1..] + b)
    ensures IsTemplate(a + b) && Format(a + b, time, suites) == [a[0]] + Format(a[1..] + b, time, suites)
  {
    assert (a + b)[0] == a[0];
    assert (a + b)[1..] == a[1..] + b;
  }

  /** The step of `FormatConcat` for a template that starts with `{time}`. */
  lemma FormatConcatTime(a: string, b: string, time: string, suites: string)
    requires FieldAt("time", a) && IsTemplate(a[6..] + b)
    ensures IsTemplate(a + b) && Format(a + b, time, suites) == time + Format(a[6..] + b, time, suites)
  {
    FieldAtConcat("time", a, b);
    assert (a + b)[6..] == a[6..] + b;
  }

  /** The step of `FormatConcat` for a template that starts with `{suites}`. */
  lemma FormatConcatSuites(a: string, b: string, time: string, suites: string)
    requires FieldAt("suites", a) && IsTemplate(a[8..] + b)
    ensures IsTemplate(a + b) && Format(a + b, time, suites) == suites + Format(a[8..] + b, time, suites)
  {
    FieldAtConcat("suites", a, b);
    assert !FieldAt("time", a + b) by { assert (a + b)[1] == a[1] == "suites"[0] != "time"[0]; }
    assert (a + b)[8..] == a[8..] + b;
  }

  /** A field at the start of `a` stays at the start of `a + b`. */
  lemma FieldAtConcat(name: string, a: string, b: string)
    requires FieldAt(name, a)
    ensures FieldAt(name, a + b)
  {
    assert forall i | 0 <= i < |a| :: (a + b)[i] == a[i];
  }

  lemma FormatTimeField(time: string, suites: string)
    ensures IsTemplate("{time}") && Format("{time}", time, suites) == time
  {
    assert FieldAt("time", "{time}");
    assert "{time}"[6..] == [];
  }

  lemma FormatSuitesField(time: string, suites: string)
    ensures IsTemplate("{suites}") && Format("{suites}", time, suites) == suites
  {
    assert !FieldAt("time", "{suites}") by { assert "{suites}"[1] != "{time}"[1]; }
    assert FieldAt("suites", "{suites}");
    assert "{suites}"[8..] == [];
  }

  /** A template made of brace-free pieces around the two fields formats piece by piece. */
  lemma FormatPieces(p1: string, p2: string, p3: string, time: string, suites: string)
    requires BraceFree(p1) && BraceFree(p2) && BraceFree(p3)
    ensures IsTemplate(p1 + "{time}" + p2 + "{suites}" + p3)
    ensures Format(p1 + "{time}" + p2 + "{suites}" + p3, time, suites) == p1 + time + p2 + suites + p3
  {
    FormatBraceFree(p1, time, suites);
    FormatBraceFree(p2, time, suites);
    FormatBraceFree(p3, time, suites);
    FormatTimeField(time, suites);
    FormatSuitesField(time, suites);
    FormatConcat(p1, "{time}", time, suites);
    FormatConcat(p1 + "{time}", p2, time, suites);
    FormatConcat(p1 + "{time}" + p2, "{suites}", time, suites);
    FormatConcat(p1 + "{time}" + p2 + "{suites}", p3, time, suites);
  }

  /** Formatting the two templates: each literal piece stays, each field is replaced. */
  lemma FormatTemplates(time: string, suites: string)
    ensures IsTemplate(TemplateNoMachineType) && IsTemplate(TemplateMachineType)
    ensures Format(TemplateNoMachineType, time, suites)
         == ".*-(?P<scheduled>" + time + ")-(?P<suite>" + suites + ")-(?P<branch>.*)-.*?-.*?"
    ensures Format(TemplateMachineType, time, suites) == Format(TemplateNoMachineType, time, suites) + "-.*?"
  {
    FormatPieces(".*-(?P<scheduled>", ")-(?P<suite>", ")-(?P<branch>.*)-.*?-.*?", time, suites);
    FormatBraceFree("-.*?", time, suites);
    FormatConcat(TemplateNoMachineType, "-.*?", time, suites);
  }

  // ---------------------------------------------------------------------------
  // '|'.join and reading an alternation back

  /** `sep.join(xs)`. */
  function Join(sep: string, xs: seq<string>): string
  {
    if |xs| == 0 then ""
    else if |xs| == 1 then xs[0]
    else xs[0] + sep + Join(sep, xs[1..])
  }

  /** `s.split(c)`: the pieces between occurrences of `c`; never empty. */
  function Split(c: char, s: string): (r: seq<string>)
    ensures |r| >= 1
    decreases |s|
  {
    if s == [] then [""]
    else
      var rest := Split(c, s[1..]);
      if s[0] == c then [""] + rest else [[s[0]] + rest[0]] + rest[1..]
  }

  lemma {:induction false} SplitNoSeparator(c: char, a: string)
    requires c !in a
    ensures Split(c, a) == [a]
    decreases |a|
  {
    if a != [] {
      SplitNoSeparator(c, a[1..]);
      assert [a[0]] + a[1..] == a;
    }
  }

  lemma {:induction false} SplitAfterPiece(c: char, a: string, b: string)
    requires c !in a
    ensures Split(c, a + [c] + b) == [a] + Split(c, b)
    decreases |a|
  {
    if a == [] {
      assert a + [c] + b == [c] + b;
      assert ([c] + b)[1..] == b;
    } else {
      assert (a + [c] + b)[1..] == a[1..] + [c] + b;
      SplitAfterPiece(c, a[1..], b);
      assert [a[0]] + a[1..] == a;
    }
  }

  /** The alternatives of the regex alternation in a join, in order. */
  function Alternatives(suites: seq<string>): seq<string>
  {
    Split('|', Join("|", suites))
  }

  /** Joining names that contain no `|` and splitting again gives the names back. */
  lemma {:induction false} SplitJoin(xs: seq<string>)
    requires xs != []
    requires forall i | 0 <= i < |xs| :: '|' !in xs[i]
    ensures Alternatives(xs) == xs
    decreases |xs|
  {
    if |xs| == 1 {
      SplitNoSeparator('|', xs[0]);
    } else {
      SplitJoin(xs[1..]);
      SplitAfterPiece('|', xs[0], Join("|", xs[1..]));
      assert [xs[0]] + xs[1..] == xs;
    }
  }

  // ---------------------------------------------------------------------------
  // get_name_regexes

  /** The two catalog regexes: the machine-type template first, then the one without. */
  function GetNameRegexes(timestampRegex: string, suites: seq<string>): (r: seq<string>)
    ensures |r| == 2
    ensures r[1] == ".*-(?P<scheduled>" + timestampRegex + ")-(?P<suite>" + "(" + Join("|", suites) + ")"
                    + ")-(?P<branch>.*)-.*?-.*?"
    ensures r[0] == r[1] + "-.*?"
  {
    var suitesStr := "(" + Join("|", suites) + ")";
    FormatTemplates(timestampRegex, suitesStr);
    [Format(TemplateMachineType, timestampRegex, suitesStr), Format(TemplateNoMachineType, timestampRegex, suitesStr)]
  }

  // ---------------------------------------------------------------------------
  // Facts about the catalog constant

  /** A strip character of `str.strip(' -')`. */
  predicate IsStripChar(c: char)
  {
    c == ' ' || c == '-'
  }

  /** Neither end of `x` is a strip character: `strip(' -')` has nothing to remove. */
  predicate Stripped(x: string)
  {
    x == [] || (!IsStripChar(x[0]) && !IsStripChar(x[|x| - 1]))
  }

  /** A catalog name: non-empty, no `|`, and nothing for `strip(' -')` to remove. */
  predicate PlainName(x: string)
  {
    x != [] && Stripped(x) && '|' !in x
  }

  predicate PlainCatalog(suites: seq<string>)
  {
    suites != [] && forall i | 0 <= i < |suites| :: PlainName(suites[i])
  }

  lemma SuiteNamesPlain()
    ensures PlainCatalog(SuiteNames)
  {
    PlainNamesBetween0And11();
    PlainNamesBetween11And22();
    PlainNamesBetween22And33();
  }

  lemma PlainNamesBetween0And11()
    ensures forall i | 0 <= i < 11 :: PlainName(SuiteNames[i])
  {
  }

  lemma PlainNamesBetween11And22()
    ensures forall i | 11 <= i < 22 :: PlainName(SuiteNames[i])
  {
  }

  lemma PlainNamesBetween22And33()
    ensures forall i | 22 <= i < 33 :: PlainName(SuiteNames[i])
  {
  }

  /** The alternation embedded in the catalog regexes tries exactly the catalog, in order. */
  lemma {:induction false} CatalogAlternatives(suites: seq<string>)
    requires PlainCatalog(suites)
    ensures Alternatives(suites) == suites
  {
    SplitJoin(suites);
  }
}
