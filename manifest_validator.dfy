/** `Buildpack::ManifestValidator`: the cross-field check of a buildpack
    manifest's `default_versions` against its `dependencies`, and the
    `valid?` / `errors` contract around it. */
module Buildpack {
  import opened RubyArray

  datatype Option<T> = None | Some(value: T)

  /** One entry of `dependencies` or of `default_versions`.  Only `name` is
      ever read by the live rules. */
  datatype Entry = Entry(name: string, version: string)

  /** The two sections of the parsed manifest that the validator reads; `None`
      when the key is absent from the document. */
  datatype Manifest = Manifest(defaultVersions: Option<seq<Entry>>, dependencies: Option<seq<Entry>>)

  /** One structural error reported by the schema-driven parser. */
  datatype ParserError = ParserError(path: string, message: string)

  /** The keys of the `errors` hash. */
  datatype ErrorKey = ManifestParserErrors

  /** How a call of `valid?` ends: it returns a boolean, or the process exits
      with `status` after writing `stderr`, or an exception escapes. */
  datatype Run = Returned(valid: bool) | Exited(stderr: string, status: int) | Raised(exception: string)

  /** The two live consistency rules. */
  datatype Rule = DuplicateName | MissingName

  /** One line of the diagnostic that `validate_default_versions` prints;
      `Text` gives its exact wording. */
  datatype Line = Malformed | Problem(rule: Rule, name: string) | MoreInformation

  function Text(line: Line): string {
    match line
    case Malformed => "The buildpack manifest is malformed:"
    case Problem(DuplicateName, n) =>
      "- " + n + " had more than one 'default_versions' entry in the buildpack manifest."
    case Problem(MissingName, n) =>
      "- a 'default_versions' entry for " + n + " was specified by the buildpack manifest, but no " +
      "'dependencies' entry with the name " + n + " was found in the buildpack manifest."
    case MoreInformation =>
      "For more information, see " + "https://docs.cloudfoundry.org/buildpacks/custom.html#specifying-default-versions"
  }

  /** The class of the exception that escapes `valid?` when
      `default_versions` is present but `dependencies` is not (`nil.map`). */
  const NoMethodError := "NoMethodError"

  /** `entries.map { |dep| dep['name'] }`.  This is `Map` with the name
      selector, written out directly: going through `Map` and a lambda made
      the proofs about `Report` markedly more expensive for the solver. */
  function Names(entries: seq<Entry>): (names: seq<string>)
    ensures |names| == |entries| && forall i :: 0 <= i < |entries| ==> names[i] == entries[i].name
  {
    if entries == [] then [] else Names(entries[..|entries| - 1]) + [entries[|entries| - 1].name]
  }

  /** `has_duplicate_names?` */
  predicate HasDuplicateNames(names: seq<string>) {
    |names| != |Uniq(names)|
  }

  /** The block `{ |dep| default_dependency_names.count(dep) > 1 }`. */
  function CountedTwiceIn(names: seq<string>): string -> bool {
    (n: string) => multiset(names)[n] > 1
  }

  /** `names.find_all { |dep| names.count(dep) > 1 }.uniq` */
  function Duplicates(names: seq<string>): seq<string> {
    Uniq(FindAll(names, CountedTwiceIn(names)))
  }

  /** `dependency_name_not_found?` */
  predicate DependencyNameNotFound(names: seq<string>, dependencyNames: seq<string>) {
    Difference(names, dependencyNames) != []
  }

  /** One `rule` line per name, in the order of `names`. */
  function Problems(rule: Rule, names: seq<string>): seq<Line> {
    if names == [] then [] else Problems(rule, names[..|names| - 1]) + [Problem(rule, names[|names| - 1])]
  }

  /** The lines the duplicate-name rule contributes. */
  function DuplicateLines(names: seq<string>): seq<Line> {
    if HasDuplicateNames(names) then Problems(DuplicateName, Duplicates(names)) else []
  }

  /** The lines the missing-name rule contributes. */
  function MissingLines(names: seq<string>, dependencyNames: seq<string>): seq<Line> {
    if DependencyNameNotFound(names, dependencyNames) then Problems(MissingName, Difference(names, dependencyNames))
    else []
  }

  /** The lines `validate_default_versions` prints before exiting, or `[]`
      when it returns normally. */
  function Report(defaultVersions: seq<Entry>, dependencies: seq<Entry>): seq<Line> {
    var names, dependencyNames := Names(defaultVersions), Names(dependencies);
    if HasDuplicateNames(names) || DependencyNameNotFound(names, dependencyNames) then
      [Malformed] + (DuplicateLines(names) + MissingLines(names, dependencyNames)) + [MoreInformation]
    else
      []
  }

  /** `Array#join`. */
  function Join(parts: seq<string>, separator: string): string {
    if parts == [] then "" else if |parts| == 1 then parts[0] else parts[0] + separator + Join(parts[1..], separator)
  }

  /** What `STDERR.puts error_messaging.join("\n")` writes: `puts` adds the
      final newline, as the last line never ends with one. */
  function StderrText(lines: seq<Line>): string {
    Join(Map(lines, Text), "\n") + "\n"
  }

  /** The `errors` hash that `validate` assigns at its end. */
  function ErrorsFor(parserErrors: seq<ParserError>): map<ErrorKey, seq<ParserError>> {
    if parserErrors == [] then map[] else map[ManifestParserErrors := parserErrors]
  }

  /** How `valid?` ends for a manifest that the parser turned into `manifest`
      while reporting `parserErrors`. */
  function ValidOutcome(manifest: Manifest, parserErrors: seq<ParserError>): Run {
    match manifest.defaultVersions
    case None => Returned(ErrorsFor(parserErrors) == map[])
    case Some(defaultVersions) =>
      match manifest.dependencies
      case None => Raised(NoMethodError)
      case Some(dependencies) =>
        if Report(defaultVersions, dependencies) != [] then Exited(StderrText(Report(defaultVersions, dependencies)), 1)
        else Returned(ErrorsFor(parserErrors) == map[])
  }

  /** `items.each { |item| error_messaging << <rule's message for item> }` */
  method AppendEach(errorMessaging: seq<Line>, rule: Rule, items: seq<string>) returns (appended: seq<Line>)
    ensures appended == errorMessaging + Problems(rule, items)
  {
    appended := errorMessaging;
    for i := 0 to |items|
      invariant appended == errorMessaging + Problems(rule, items[..i])
    {
      assert items[..i + 1][..i] == items[..i];
      appended := appended + [Problem(rule, items[i])];
    }
    assert items[..|items|] == items;
  }

  /** `validate_default_versions`, with the final `STDERR.puts` / `exit 1`
      replaced by returning the lines; `[]` means it returned normally. */
  method ValidateDefaultVersions(defaultVersions: seq<Entry>, dependencies: seq<Entry>)
    returns (errorMessaging: seq<Line>)
    ensures errorMessaging == Report(defaultVersions, dependencies)
  {
    var defaultDependencyNames := Names(defaultVersions);
    var dependencyNames := Names(dependencies);
    var somethingWasInvalid := false;
    errorMessaging := [];

    if HasDuplicateNames(defaultDependencyNames) {
      somethingWasInvalid := true;
      var duplicates := Duplicates(defaultDependencyNames);
      errorMessaging := AppendEach(errorMessaging, DuplicateName, duplicates);
    }
    assert errorMessaging == DuplicateLines(defaultDependencyNames);

    if DependencyNameNotFound(defaultDependencyNames, dependencyNames) {
      somethingWasInvalid := true;
      var missingDependencies := Difference(defaultDependencyNames, dependencyNames);
      errorMessaging := AppendEach(errorMessaging, MissingName, missingDependencies);
    }
    assert errorMessaging == DuplicateLines(defaultDependencyNames) + MissingLines(defaultDependencyNames, dependencyNames);

    if somethingWasInvalid {
      errorMessaging := [Malformed] + errorMessaging;
      errorMessaging := errorMessaging + [MoreInformation];
    }
  }

  /** The validator object: it remembers the manifest path and, once `valid?`
      has returned, the `errors` hash (`None` stands for Ruby's `nil`). */
  class ManifestValidator {
    const manifestPath: string
    var errors: Option<map<ErrorKey, seq<ParserError>>>

    constructor (manifestPath: string)
      ensures this.manifestPath == manifestPath && errors == None
    {
      this.manifestPath := manifestPath;
      errors := None;
    }

    /** `validate`: loading the schema and parsing the file are outside the
        model, so what the parser returned comes in as `manifest` and
        `parserErrors`.  `halt` is `None` when it returns normally. */
    method Validate(manifest: Manifest, parserErrors: seq<ParserError>) returns (halt: Option<Run>)
      modifies this
      ensures halt.None? ==> errors == Some(ErrorsFor(parserErrors)) && ValidOutcome(manifest, parserErrors).Returned?
      ensures halt.Some? ==> errors == old(errors) && halt.value == ValidOutcome(manifest, parserErrors)
      ensures halt.Some? ==> !halt.value.Returned?
    {
      if manifest.defaultVersions.Some? {
        if manifest.dependencies.None? {
          return Some(Raised(NoMethodError));
        }
        var lines := ValidateDefaultVersions(manifest.defaultVersions.value, manifest.dependencies.value);
        if lines != [] {
          return Some(Exited(StderrText(lines), 1));
        }
      }
      var e := map[];
      if parserErrors != [] {
        e := e[ManifestParserErrors := parserErrors];
      }
      errors := Some(e);
      halt := None;
    }

    /** `valid?`: runs `validate`, then answers whether `errors` is empty. */
    method Valid(manifest: Manifest, parserErrors: seq<ParserError>) returns (run: Run)
      modifies this
      ensures run == ValidOutcome(manifest, parserErrors)
      ensures run.Returned? ==> errors == Some(ErrorsFor(parserErrors)) && (run.valid <==> errors.value == map[])
      ensures !run.Returned? ==> errors == old(errors)
    {
      var halt := Validate(manifest, parserErrors);
      if halt.Some? {
        return halt.value;
      }
      run := Returned(errors.value == map[]);
    }
  }
}
