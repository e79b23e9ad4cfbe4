/** What `validate_default_versions` and `valid?` promise, stated over the
    model in module `Buildpack` and proved from it. */
module ManifestValidatorProperties {
  import opened RubyArray
  import opened Buildpack

  /** The condition the check enforces on the name fields: every
      `default_versions` name is listed once and names some dependency. */
  predicate NamesConsistent(defaultVersions: seq<Entry>, dependencies: seq<Entry>) {
    var names := Names(defaultVersions);
    Distinct(names) && forall i :: 0 <= i < |names| ==> names[i] in Names(dependencies)
  }

  /** `has_duplicate_names?` holds exactly when some name is listed twice. */
  lemma HasDuplicateNamesIff(names: seq<string>)
    ensures HasDuplicateNames(names) <==> exists i, j :: 0 <= i < j < |names| && names[i] == names[j]
  {
    UniqLength(names);
  }

  /** The duplicate names are the names counted more than once, each listed
      once, in the order of their first occurrence. */
  lemma DuplicatesSpec(names: seq<string>)
    ensures forall x :: x in Duplicates(names) <==> multiset(names)[x] > 1
    ensures Distinct(Duplicates(names))
    ensures InFirstOccurrenceOrder(Duplicates(names), names)
  {
    var p := CountedTwiceIn(names);
    FindAllSpec(names, p);
    UniqSpec(FindAll(names, p));
    UniqFindAllOrder(names, p);
    forall x | multiset(names)[x] > 1 ensures x in names { }
  }

  /** The duplicate-name rule fires exactly when it has a name to report. */
  lemma DuplicatesEmptyIff(names: seq<string>)
    ensures Duplicates(names) == [] <==> !HasDuplicateNames(names)
  {
    HasDuplicateNamesIff(names);
    DuplicatesSpec(names);
    DistinctIffCountsAtMostOne(names);
    if HasDuplicateNames(names) {
      var i, j :| 0 <= i < j < |names| && names[i] == names[j];
      RepeatedElementCount(names, i, j);
      assert names[i] in Duplicates(names);
    }
    if Duplicates(names) != [] {
      assert multiset(names)[Duplicates(names)[0]] > 1;
    }
  }

  /** `dependency_name_not_found?` holds exactly when some default-version
      name is carried by no dependency. */
  lemma DependencyNameNotFoundIff(names: seq<string>, dependencyNames: seq<string>)
    ensures DependencyNameNotFound(names, dependencyNames)
            <==> exists i :: 0 <= i < |names| && names[i] !in dependencyNames
  {
    DifferenceSpec(names, dependencyNames);
    if DependencyNameNotFound(names, dependencyNames) {
      var x := Difference(names, dependencyNames)[0];
      assert x in names;
    }
  }

  /** The `k`-th line of a run of one rule is that rule's line for the
      `k`-th name. */
  lemma {:induction false} ProblemsAt(rule: Rule, names: seq<string>)
    ensures |Problems(rule, names)| == |names|
    ensures forall k :: 0 <= k < |names| ==> Problems(rule, names)[k] == Problem(rule, names[k])
  {
    if names != [] {
      ProblemsAt(rule, names[..|names| - 1]);
    }
  }

  /** A run of lines of one rule holds the line for `x` as often as `names`
      holds `x`, and no line of the other kind. */
  lemma {:induction false} ProblemsCount(rule: Rule, names: seq<string>, line: Line)
    ensures multiset(Problems(rule, names))[line]
            == if line.Problem? && line.rule == rule then multiset(names)[line.name] else 0
  {
    if names != [] {
      var p := names[..|names| - 1];
      assert names == p + [names[|names| - 1]];
      ProblemsCount(rule, p, line);
    }
  }

  /** Both rules are evaluated independently: each contributes its lines
      whatever the other finds, duplicates first, between the header and the
      trailer; and the output is empty exactly when neither has a name. */
  lemma ReportShape(defaultVersions: seq<Entry>, dependencies: seq<Entry>)
    ensures var names, dependencyNames := Names(defaultVersions), Names(dependencies);
      var duplicates, missing := Duplicates(names), Difference(names, dependencyNames);
      Report(defaultVersions, dependencies)
      == if duplicates == [] && missing == [] then []
         else [Malformed] + Problems(DuplicateName, duplicates) + Problems(MissingName, missing) + [MoreInformation]
  {
    DuplicatesEmptyIff(Names(defaultVersions));
  }

  /** No output, and so no failure, exactly when the names are consistent. */
  lemma ReportEmptyIff(defaultVersions: seq<Entry>, dependencies: seq<Entry>)
    ensures Report(defaultVersions, dependencies) == [] <==> NamesConsistent(defaultVersions, dependencies)
  {
    var names := Names(defaultVersions);
    HasDuplicateNamesIff(names);
    DependencyNameNotFoundIff(names, Names(dependencies));
  }

  /** The layout of a failing report: the header first, the documentation
      line last, rule lines in between, every duplicate-name line before
      every missing-name line. */
  predicate FramedLayout(r: seq<Line>) {
    && |r| >= 3 && r[0] == Malformed && r[|r| - 1] == MoreInformation
    && (forall k :: 0 < k < |r| - 1 ==> r[k].Problem?)
    && forall i, j ::
         (0 <= i < |r| && 0 <= j < |r| && r[i].Problem? && r[i].rule == MissingName
          && r[j].Problem? && r[j].rule == DuplicateName) ==> j < i
  }

  lemma FramedLayoutOf(duplicates: seq<string>, missing: seq<string>)
    requires duplicates != [] || missing != []
    ensures FramedLayout([Malformed] + Problems(DuplicateName, duplicates) + Problems(MissingName, missing) + [MoreInformation])
  {
    var a, b := Problems(DuplicateName, duplicates), Problems(MissingName, missing);
    ProblemsAt(DuplicateName, duplicates);
    ProblemsAt(MissingName, missing);
    var r := [Malformed] + a + b + [MoreInformation];
    assert forall k :: 1 <= k <= |a| ==> r[k] == a[k - 1];
    assert forall k :: |a| < k <= |a| + |b| ==> r[k] == b[k - 1 - |a|];
  }

  /** When the check fails, its lines have the framed layout. */
  lemma ReportFraming(defaultVersions: seq<Entry>, dependencies: seq<Entry>)
    ensures Report(defaultVersions, dependencies) != [] ==> FramedLayout(Report(defaultVersions, dependencies))
  {
    var names := Names(defaultVersions);
    var duplicates, missing := Duplicates(names), Difference(names, Names(dependencies));
    ReportShape(defaultVersions, dependencies);
    if duplicates != [] || missing != [] {
      FramedLayoutOf(duplicates, missing);
    }
  }

  /** The header and the trailer are no rule lines. */
  lemma FramedCount(duplicateLines: seq<Line>, missingLines: seq<Line>, line: Line)
    requires line.Problem?
    ensures multiset([Malformed] + duplicateLines + missingLines + [MoreInformation])[line]
            == multiset(duplicateLines)[line] + multiset(missingLines)[line]
  {
  }

  /** Each name counted more than once gets exactly one duplicate-name
      line; every other name gets none. */
  lemma ReportDuplicateCount(defaultVersions: seq<Entry>, dependencies: seq<Entry>, x: string)
    ensures multiset(Report(defaultVersions, dependencies))[Problem(DuplicateName, x)]
            == if multiset(Names(defaultVersions))[x] > 1 then 1 else 0
  {
    var names, dependencyNames := Names(defaultVersions), Names(dependencies);
    var duplicates, missing := Duplicates(names), Difference(names, dependencyNames);
    var line := Problem(DuplicateName, x);
    ReportShape(defaultVersions, dependencies);
    DuplicatesSpec(names);
    DistinctCount(duplicates, x);
    ProblemsCount(DuplicateName, duplicates, line);
    if duplicates != [] || missing != [] {
      FramedCount(Problems(DuplicateName, duplicates), Problems(MissingName, missing), line);
      ProblemsCount(MissingName, missing, line);
    }
  }

  /** Each name that no dependency carries gets one missing-name line per
      listing in `default_versions`; every other name gets none. */
  lemma ReportMissingCount(defaultVersions: seq<Entry>, dependencies: seq<Entry>, x: string)
    ensures multiset(Report(defaultVersions, dependencies))[Problem(MissingName, x)]
            == if x in Names(dependencies) then 0 else multiset(Names(defaultVersions))[x]
  {
    var names, dependencyNames := Names(defaultVersions), Names(dependencies);
    var duplicates, missing := Duplicates(names), Difference(names, dependencyNames);
    var line := Problem(MissingName, x);
    ReportShape(defaultVersions, dependencies);
    DifferenceSpec(names, dependencyNames);
    ProblemsCount(MissingName, missing, line);
    if duplicates != [] || missing != [] {
      FramedCount(Problems(DuplicateName, duplicates), Problems(MissingName, missing), line);
      ProblemsCount(DuplicateName, duplicates, line);
    }
  }

  /** The outcome reads the name fields only: versions never matter. */
  lemma ReportIgnoresVersions(defaultVersions1: seq<Entry>, defaultVersions2: seq<Entry>,
                              dependencies1: seq<Entry>, dependencies2: seq<Entry>)
    requires |defaultVersions1| == |defaultVersions2|
    requires forall i :: 0 <= i < |defaultVersions1| ==> defaultVersions1[i].name == defaultVersions2[i].name
    requires |dependencies1| == |dependencies2|
    requires forall i :: 0 <= i < |dependencies1| ==> dependencies1[i].name == dependencies2[i].name
    ensures Report(defaultVersions1, dependencies1) == Report(defaultVersions2, dependencies2)
  {
    assert Names(defaultVersions1) == Names(defaultVersions2);
    assert Names(dependencies1) == Names(dependencies2);
  }

  /** The outcome depends on `dependencies` only through the set of their
      names, so reordering (or repeating) dependencies changes nothing. */
  lemma ReportDependsOnDependencyNameSet(defaultVersions: seq<Entry>, dependencies1: seq<Entry>, dependencies2: seq<Entry>)
    requires forall x :: x in Names(dependencies1) <==> x in Names(dependencies2)
    ensures Report(defaultVersions, dependencies1) == Report(defaultVersions, dependencies2)
  {
    DifferenceUsesMembershipOnly(Names(defaultVersions), Names(dependencies1), Names(dependencies2));
  }

  lemma ReportIgnoresDependencyOrder(defaultVersions: seq<Entry>, dependencies1: seq<Entry>, dependencies2: seq<Entry>)
    requires multiset(dependencies1) == multiset(dependencies2)
    ensures Report(defaultVersions, dependencies1) == Report(defaultVersions, dependencies2)
  {
    forall x ensures x in Names(dependencies1) ==> x in Names(dependencies2) {
      SameNamesOneWay(dependencies1, dependencies2, x);
    }
    forall x ensures x in Names(dependencies2) ==> x in Names(dependencies1) {
      SameNamesOneWay(dependencies2, dependencies1, x);
    }
    ReportDependsOnDependencyNameSet(defaultVersions, dependencies1, dependencies2);
  }

  lemma SameNamesOneWay(from: seq<Entry>, to: seq<Entry>, x: string)
    requires multiset(from) == multiset(to)
    ensures x in Names(from) ==> x in Names(to)
  {
    if x in Names(from) {
      var i :| 0 <= i < |from| && Names(from)[i] == x;
      assert from[i] in multiset(to);
      var j :| 0 <= j < |to| && to[j] == from[i];
      assert Names(to)[j] == x;
    }
  }

  /** No two diagnostic lines read the same, so counting printed lines is
      counting `Line`s. */
  lemma TextInjective(a: Line, b: Line)
    ensures Text(a) == Text(b) ==> a == b
  {
    if Text(a) == Text(b) {
      if a.Problem? && b.Problem? {
        ProblemText(a.rule, a.name);
        ProblemText(b.rule, b.name);
        if a.rule == b.rule {
          SameRuleText(a.rule, a.name, b.name);
        }
      } else {
        StartsTell(a, b);
      }
    }
  }

  /** Lines whose texts agree are both rule lines, or the same fixed line. */
  lemma StartsTell(a: Line, b: Line)
    requires Text(a) == Text(b)
    ensures a.Problem? == b.Problem? && (!a.Problem? ==> a == b)
  {
    LineTextStart(a);
    LineTextStart(b);
  }

  lemma SameRuleText(rule: Rule, name1: string, name2: string)
    requires Text(Problem(rule, name1)) == Text(Problem(rule, name2))
    ensures name1 == name2
  {
    ProblemText(rule, name1);
    ProblemText(rule, name2);
    var t, k := Text(Problem(rule, name1)), if rule == DuplicateName then 2 else 33;
    assert name1 == t[k..k + |name1|] == name2;
  }

  /** The first character tells the header, the trailer and the rule lines
      apart. */
  lemma LineTextStart(line: Line)
    ensures |Text(line)| > 0
    ensures Text(line)[0] == match line case Malformed => 'T' case MoreInformation => 'F' case Problem(_, _) => '-'
  {
    match line
    case Malformed =>
    case MoreInformation =>
    case Problem(rule, name) => ProblemText(rule, name);
  }

  /** Where the name sits in a rule line, and the character just before the
      common ending " in the buildpack manifest." that tells the rules apart. */
  lemma ProblemText(rule: Rule, name: string)
    ensures var t := Text(Problem(rule, name));
      && t[0] == '-'
      && (rule == DuplicateName ==> |t| == |name| + 72 && t[2..2 + |name|] == name && t[|t| - 28] == 'y')
      && (rule == MissingName ==> |t| == 2 * |name| + 154 && t[33..33 + |name|] == name && t[|t| - 28] == 'd')
  {
    if rule == DuplicateName {
      DuplicateText(name);
    } else {
      MissingText(name);
    }
  }

  lemma DuplicateText(name: string)
    ensures var t := Text(Problem(DuplicateName, name));
      |t| == |name| + 72 && t[0] == '-' && t[2..2 + |name|] == name && t[|t| - 28] == 'y'
  {
  }

  lemma MissingText(name: string)
    ensures var t := Text(Problem(MissingName, name));
      |t| == 2 * |name| + 154 && t[0] == '-' && t[33..33 + |name|] == name && t[|t| - 28] == 'd'
  {
    MissingTextName(name);
    MissingTextEnd(name);
  }

  lemma MissingTextName(name: string)
    ensures var t := Text(Problem(MissingName, name));
      |t| == 2 * |name| + 154 && t[33..33 + |name|] == name
  {
  }

  lemma MissingTextEnd(name: string)
    ensures var t := Text(Problem(MissingName, name));
      |t| == 2 * |name| + 154 && t[0] == '-' && t[|t| - 28] == 'd'
  {
  }

  /** Printed text: exactly one `- <x> had more than one 'default_versions'
      entry ...` line for each name counted more than once, none otherwise. */
  lemma PrintedDuplicateLines(defaultVersions: seq<Entry>, dependencies: seq<Entry>, x: string)
    ensures multiset(Map(Report(defaultVersions, dependencies), Text))[Text(Problem(DuplicateName, x))]
            == if multiset(Names(defaultVersions))[x] > 1 then 1 else 0
  {
    forall a, b ensures Text(a) == Text(b) ==> a == b { TextInjective(a, b); }
    MapCountInjective(Report(defaultVersions, dependencies), Text, Problem(DuplicateName, x));
    ReportDuplicateCount(defaultVersions, dependencies, x);
  }

  /** Printed text: one missing-name line per listing of a name that no
      dependency carries, none for any other name. */
  lemma PrintedMissingLines(defaultVersions: seq<Entry>, dependencies: seq<Entry>, x: string)
    ensures multiset(Map(Report(defaultVersions, dependencies), Text))[Text(Problem(MissingName, x))]
            == if x in Names(dependencies) then 0 else multiset(Names(defaultVersions))[x]
  {
    forall a, b ensures Text(a) == Text(b) ==> a == b { TextInjective(a, b); }
    MapCountInjective(Report(defaultVersions, dependencies), Text, Problem(MissingName, x));
    ReportMissingCount(defaultVersions, dependencies, x);
  }

  lemma {:induction false} JoinSnoc(parts: seq<string>, last: string, separator: string)
    requires parts != []
    ensures Join(parts + [last], separator) == Join(parts, separator) + separator + last
  {
    if |parts| > 1 {
      assert (parts + [last])[1..] == parts[1..] + [last];
      JoinSnoc(parts[1..], last, separator);
    }
  }

  lemma JoinMapFramed<T>(first: T, middle: seq<T>, last: T, f: T -> string, separator: string)
    requires middle != []
    ensures Join(Map([first] + middle + [last], f), separator)
            == f(first) + separator + Join(Map(middle, f), separator) + separator + f(last)
  {
    var texts := Map(middle, f);
    var all := Map([first] + middle + [last], f);
    assert all == [f(first)] + texts + [f(last)];
    assert all[1..] == texts + [f(last)];
    JoinSnoc(texts, f(last), separator);
  }

  /** The text written to standard error: the header line, the rule lines
      joined by newlines, the documentation line, each ending in a newline. */
  lemma StderrFramed(first: Line, middle: seq<Line>, last: Line)
    requires middle != []
    ensures StderrText([first] + middle + [last])
            == Text(first) + "\n" + Join(Map(middle, Text), "\n") + "\n" + Text(last) + "\n"
  {
    JoinMapFramed(first, middle, last, Text, "\n");
  }

  /** How `valid?` ends: without `default_versions` the consistency check is
      skipped; with it but without `dependencies` an exception escapes; the
      process exits with status 1 exactly when the names are inconsistent,
      after writing the framed diagnostic; otherwise `valid?` answers whether
      the parser reported no error. */
  lemma ValidOutcomeSpec(manifest: Manifest, parserErrors: seq<ParserError>)
    ensures var run := ValidOutcome(manifest, parserErrors);
      && (manifest.defaultVersions.None? ==> run == Returned(parserErrors == []))
      && (run.Raised? <==> manifest.defaultVersions.Some? && manifest.dependencies.None?)
      && (run.Exited? <==> manifest.defaultVersions.Some? && manifest.dependencies.Some?
                           && !NamesConsistent(manifest.defaultVersions.value, manifest.dependencies.value))
      && (run.Returned? ==> run.valid == (parserErrors == []))
      && (run.Exited? ==>
            && run.status == 1
            && var r := Report(manifest.defaultVersions.value, manifest.dependencies.value);
               run.stderr == Text(Malformed) + "\n" + Join(Map(r[1..|r| - 1], Text), "\n") + "\n"
                             + Text(MoreInformation) + "\n")
  {
    ErrorsForSpec(parserErrors);
    if manifest.defaultVersions.Some? && manifest.dependencies.Some? {
      var r := Report(manifest.defaultVersions.value, manifest.dependencies.value);
      ReportEmptyIff(manifest.defaultVersions.value, manifest.dependencies.value);
      if r != [] {
        ReportFraming(manifest.defaultVersions.value, manifest.dependencies.value);
        assert r == [Malformed] + r[1..|r| - 1] + [MoreInformation];
        StderrFramed(Malformed, r[1..|r| - 1], MoreInformation);
      }
    }
  }

  /** `errors` gains `:manifest_parser_errors` exactly when the parser
      reported something, and then holds that list. */
  lemma ErrorsForSpec(parserErrors: seq<ParserError>)
    ensures ManifestParserErrors in ErrorsFor(parserErrors) <==> parserErrors != []
    ensures ManifestParserErrors in ErrorsFor(parserErrors) ==> ErrorsFor(parserErrors)[ManifestParserErrors] == parserErrors
    ensures ErrorsFor(parserErrors) == map[] <==> parserErrors == []
  {
    if parserErrors != [] {
      assert ManifestParserErrors in ErrorsFor(parserErrors);
    }
  }

  /** An empty `default_versions` section produces no output. */
  lemma EmptyDefaultVersions(dependencies: seq<Entry>)
    ensures Report([], dependencies) == []
  {
    ReportEmptyIff([], dependencies);
  }

  /** A name listed twice is a duplicate, reported once. */
  lemma NameTwice(x: string)
    ensures Duplicates([x, x]) == [x]
  {
    var names := [x, x];
    assert multiset(names)[x] == 2;
    assert FindAll(names[1..], CountedTwiceIn(names)) == [x];
    assert FindAll(names, CountedTwiceIn(names)) == [x, x];
    assert Uniq([x, x][..1]) == [x];
  }

  /** The report, given the lines each rule contributes. */
  lemma ReportFromLines(defaultVersions: seq<Entry>, dependencies: seq<Entry>, duplicateLines: seq<Line>,
                        missingLines: seq<Line>)
    requires Problems(DuplicateName, Duplicates(Names(defaultVersions))) == duplicateLines
    requires Problems(MissingName, Difference(Names(defaultVersions), Names(dependencies))) == missingLines
    requires duplicateLines != [] || missingLines != []
    ensures Report(defaultVersions, dependencies) == [Malformed] + duplicateLines + missingLines + [MoreInformation]
  {
    ReportShape(defaultVersions, dependencies);
  }

  lemma DifferenceOfOne(x: string, b: seq<string>)
    ensures Difference([x], b) == if x in b then [] else [x]
  {
    assert [x][1..] == [];
  }

  lemma DifferenceOfTwice(x: string, b: seq<string>)
    ensures Difference([x, x], b) == if x in b then [] else [x, x]
  {
    assert [x, x][1..] == [x];
    DifferenceOfOne(x, b);
  }

  /** A name listed once is no duplicate. */
  lemma NameOnce(x: string)
    ensures Duplicates([x]) == []
  {
    assert Uniq([x][..0]) == [];
    assert Uniq([x]) == [x];
    DuplicatesEmptyIff([x]);
  }

  lemma ProblemsOfTwo(rule: Rule, x: string, y: string)
    ensures Problems(rule, [x]) == [Problem(rule, x)]
    ensures Problems(rule, [x, y]) == [Problem(rule, x), Problem(rule, y)]
  {
    assert [x][..0] == [];
    assert [x, y][..1] == [x];
  }

  lemma ThreeLines(a: Line, b: Line, c: Line)
    ensures [a] + [b] + [] + [c] == [a, b, c] && [a] + [] + [b] + [c] == [a, b, c]
  {
  }

  lemma FiveLines(a: Line, b: Line, c: Line, d: Line, e: Line)
    ensures [a] + [b] + [c, d] + [e] == [a, b, c, d, e]
  {
  }

  /** Two defaults for one name (say two `ruby` versions) and a dependency
      with that name: only the duplicate-name rule fires, whatever the
      versions, since no version rule is live. */
  lemma RepeatedDefaultReport(defaultVersions: seq<Entry>, dependencies: seq<Entry>, x: string)
    requires Names(defaultVersions) == [x, x] && x in Names(dependencies)
    ensures Report(defaultVersions, dependencies) == [Malformed, Problem(DuplicateName, x), MoreInformation]
  {
    NameTwice(x);
    ProblemsOfTwo(DuplicateName, x, x);
    DifferenceOfTwice(x, Names(dependencies));
    ReportFromLines(defaultVersions, dependencies, [Problem(DuplicateName, x)], []);
    ThreeLines(Malformed, Problem(DuplicateName, x), MoreInformation);
  }

  /** A default for a name no dependency carries (say `ruby` against
      `python`): one missing-name line. */
  lemma UnknownDefaultReport(defaultVersions: seq<Entry>, dependencies: seq<Entry>, x: string)
    requires Names(defaultVersions) == [x] && x !in Names(dependencies)
    ensures Report(defaultVersions, dependencies) == [Malformed, Problem(MissingName, x), MoreInformation]
  {
    NameOnce(x);
    DifferenceOfOne(x, Names(dependencies));
    ProblemsOfTwo(MissingName, x, x);
    ReportFromLines(defaultVersions, dependencies, [], [Problem(MissingName, x)]);
    ThreeLines(Malformed, Problem(MissingName, x), MoreInformation);
  }

  /** A name listed twice that no dependency carries is reported once as a
      duplicate and twice as missing, since `Array#-` keeps multiplicity. */
  lemma RepeatedUnknownDefaultReport(defaultVersions: seq<Entry>, dependencies: seq<Entry>, x: string)
    requires Names(defaultVersions) == [x, x] && x !in Names(dependencies)
    ensures Report(defaultVersions, dependencies)
            == [Malformed, Problem(DuplicateName, x), Problem(MissingName, x), Problem(MissingName, x), MoreInformation]
  {
    NameTwice(x);
    ProblemsOfTwo(DuplicateName, x, x);
    ProblemsOfTwo(MissingName, x, x);
    DifferenceOfTwice(x, Names(dependencies));
    ReportFromLines(defaultVersions, dependencies, [Problem(DuplicateName, x)],
                    [Problem(MissingName, x), Problem(MissingName, x)]);
    FiveLines(Malformed, Problem(DuplicateName, x), Problem(MissingName, x), Problem(MissingName, x), MoreInformation);
  }
}
