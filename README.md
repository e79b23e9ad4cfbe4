# Buildpack manifest validator, modelled in Dafny

`Buildpack::ManifestValidator` checks a buildpack's `manifest.yml`. A
schema-driven YAML parser first turns the file into data and collects
structural errors. Then, when the manifest has a `default_versions` section,
`validate_default_versions` checks it against the `dependencies` section:

- no name may have more than one `default_versions` entry;
- every `default_versions` name must be the name of some dependency.

When either rule fails, the validator writes a diagnostic to standard error
(a header line, one line per problem, a documentation link) and exits the
process with status 1. Otherwise `valid?` answers whether the parser reported
no error, and `errors` holds the parser's errors under
`:manifest_parser_errors` when there are any.

The project has three modules:

- `RubyArray` (`ruby_array.dfy`) gives the Ruby `Array` operations the
  validator relies on (`map`, `find_all`, `uniq`, `-`, `count`) and proves
  what the validator needs of them: `uniq` keeps first occurrences, `-`
  keeps the order and the multiplicity of what survives and looks at its
  right operand only through membership.
- `Buildpack` (`manifest_validator.dfy`) holds the manifest data, the exact
  wording of each diagnostic line, the specification function `Report`
  (the lines the check prints, `[]` when it passes), the imperative
  `ValidateDefaultVersions` that builds the lines step by step as the Ruby
  method does and is proved equal to `Report`, and the class
  `ManifestValidator` with its `errors` field and `valid?`.
- `ManifestValidatorProperties` (`manifest_validator_properties.dfy`)
  proves what the check promises: which names get which lines and how
  often, the layout of the output, when the process exits, what the
  result does not depend on, and worked cases.

Two behaviours of the code are worth stating outright:

- A rule on default versions that no dependency provides exists only as
  commented-out code (`lib/buildpack/manifest_validator.rb:60-66`), so
  versions are never read. `ReportIgnoresVersions` proves that.
- The missing-name rule uses `Array#-`, which keeps repeats, so a missing
  name listed twice gets two missing-name lines. `ReportMissingCount` and
  `RepeatedUnknownDefaultReport` prove that.

## Model

| member | source | states |
|---|---|---|
| RubyArray.FindAllSpec | lib/buildpack/manifest_validator.rb:45 | `find_all` keeps exactly the elements satisfying the block, each as often as it occurs, in their original order |
| RubyArray.UniqSpec | lib/buildpack/manifest_validator.rb:78 | `uniq` returns a sequence without repeats, holding the same elements as its input and no longer than it |
| RubyArray.UniqLength | lib/buildpack/manifest_validator.rb:78 | `uniq` returns its input unchanged when the input has no repeats, and something strictly shorter otherwise |
| RubyArray.UniqOrder | lib/buildpack/manifest_validator.rb:45 | `uniq` lists elements in the order of their first occurrence |
| RubyArray.UniqFindAllOrder | lib/buildpack/manifest_validator.rb:45 | `find_all` followed by `uniq` lists elements in the order of their first occurrence in the unfiltered array |
| RubyArray.DifferenceSpec | lib/buildpack/manifest_validator.rb:53 | `a - b` holds exactly the elements of `a` not in `b`, each as often as in `a`, in the order of `a` |
| RubyArray.DifferenceUsesMembershipOnly | lib/buildpack/manifest_validator.rb:53 | `a - b` depends on `b` only through which elements it holds |
| RubyArray.DistinctIffCountsAtMostOne | lib/buildpack/manifest_validator.rb:45 | a sequence has no repeats exactly when `count` is at most one for every value |
| RubyArray.MapCountInjective | lib/buildpack/manifest_validator.rb:72 | mapping with an injective function keeps every element's count |
| Buildpack.Names | lib/buildpack/manifest_validator.rb:37-39 | the names list has one name per entry, the `i`-th entry's name at position `i` |
| Buildpack.AppendEach | lib/buildpack/manifest_validator.rb:46-48 | appending one rule line per item leaves the earlier lines in place followed by the items' lines in order |
| Buildpack.ValidateDefaultVersions | lib/buildpack/manifest_validator.rb:35-75 | the lines the method builds are exactly `Report` of the two sections |
| Buildpack.ManifestValidator.constructor | lib/buildpack/manifest_validator.rb:13-15 | a new validator remembers the manifest path and has no `errors` yet |
| Buildpack.ManifestValidator.Validate | lib/buildpack/manifest_validator.rb:24-33 | `validate` either halts with an exit or exception, leaving `errors` unchanged, or sets `errors` from the parser errors |
| Buildpack.ManifestValidator.Valid | lib/buildpack/manifest_validator.rb:17-20 | `valid?` ends as `ValidOutcome` says; when it returns, its answer is whether `errors` is empty |
| ManifestValidatorProperties.HasDuplicateNamesIff | lib/buildpack/manifest_validator.rb:77-79 | `has_duplicate_names?` holds exactly when two positions carry the same name |
| ManifestValidatorProperties.DuplicatesSpec | lib/buildpack/manifest_validator.rb:45 | the duplicates are exactly the names counted more than once, each listed once, in first-occurrence order |
| ManifestValidatorProperties.DuplicatesEmptyIff | lib/buildpack/manifest_validator.rb:43-45 | there is a duplicate to report exactly when `has_duplicate_names?` holds |
| ManifestValidatorProperties.DependencyNameNotFoundIff | lib/buildpack/manifest_validator.rb:81-83 | `dependency_name_not_found?` holds exactly when some default-version name is no dependency's name |
| ManifestValidatorProperties.ProblemsAt | lib/buildpack/manifest_validator.rb:54-57 | the `k`-th line of one rule's run is that rule's line for the `k`-th name |
| ManifestValidatorProperties.ProblemsCount | lib/buildpack/manifest_validator.rb:46-48 | one rule's run holds the line for a name as often as the list holds that name, and no line of the other rule |
| ManifestValidatorProperties.ReportShape | lib/buildpack/manifest_validator.rb:41-71 | both rules run independently; the output is empty when neither has a name, else header, duplicate lines, missing lines, trailer |
| ManifestValidatorProperties.ReportEmptyIff | lib/buildpack/manifest_validator.rb:35-75 | the check prints nothing exactly when the names are distinct and each names some dependency |
| ManifestValidatorProperties.ReportFraming | lib/buildpack/manifest_validator.rb:68-71 | a failing report starts with the header, ends with the documentation line, has rule lines between, duplicate lines before missing lines |
| ManifestValidatorProperties.ReportDuplicateCount | lib/buildpack/manifest_validator.rb:43-48 | each name counted more than once gets exactly one duplicate-name line; other names get none |
| ManifestValidatorProperties.ReportMissingCount | lib/buildpack/manifest_validator.rb:51-57 | a name no dependency carries gets one missing-name line per listing; other names get none |
| ManifestValidatorProperties.ReportIgnoresVersions | lib/buildpack/manifest_validator.rb:60-66 | two manifests whose entries carry the same names, whatever the versions, get the same report |
| ManifestValidatorProperties.ReportDependsOnDependencyNameSet | lib/buildpack/manifest_validator.rb:53 | dependency lists with the same set of names give the same report |
| ManifestValidatorProperties.ReportIgnoresDependencyOrder | lib/buildpack/manifest_validator.rb:37-38 | reordering the dependencies does not change the report |
| ManifestValidatorProperties.TextInjective | lib/buildpack/manifest_validator.rb:47-71 | no two different diagnostic lines have the same text |
| ManifestValidatorProperties.PrintedDuplicateLines | lib/buildpack/manifest_validator.rb:47 | among the printed lines, the duplicate-name text for a name appears once if the name is counted more than once, else never |
| ManifestValidatorProperties.PrintedMissingLines | lib/buildpack/manifest_validator.rb:55-56 | among the printed lines, the missing-name text for a name appears once per listing when no dependency carries it, else never |
| ManifestValidatorProperties.JoinSnoc | lib/buildpack/manifest_validator.rb:72 | joining a list with one more part appends the separator and that part |
| ManifestValidatorProperties.StderrFramed | lib/buildpack/manifest_validator.rb:72 | standard error receives the header, the rule lines joined by newlines and the documentation line, each followed by a newline |
| ManifestValidatorProperties.ValidOutcomeSpec | lib/buildpack/manifest_validator.rb:17-33 | without `default_versions` the check is skipped; without `dependencies` it raises; it exits with status 1 exactly when the names are inconsistent; otherwise `valid?` is whether the parser reported no error |
| ManifestValidatorProperties.ErrorsForSpec | lib/buildpack/manifest_validator.rb:31-32 | `errors` has the `:manifest_parser_errors` key exactly when the parser reported errors, and then holds them |
| ManifestValidatorProperties.EmptyDefaultVersions | lib/buildpack/manifest_validator.rb:36 | an empty `default_versions` section passes the check |
| ManifestValidatorProperties.RepeatedDefaultReport | lib/buildpack/manifest_validator.rb:41-48 | two defaults for one name that a dependency carries give exactly the header, one duplicate line and the trailer |
| ManifestValidatorProperties.UnknownDefaultReport | lib/buildpack/manifest_validator.rb:51-57 | one default for a name no dependency carries gives exactly the header, one missing line and the trailer |
| ManifestValidatorProperties.RepeatedUnknownDefaultReport | lib/buildpack/manifest_validator.rb:43-57 | a name listed twice that no dependency carries gives one duplicate line and two missing lines |

## Left out

- Loading the schema file, building the schema validator and parsing the manifest (`lib/buildpack/manifest_validator.rb:25-28`): the parser is a third-party library. Its result enters the model as inputs: the two sections as `Manifest` and the parser's errors as a list.
- The contents of `parser.errors`: each error is kept as an opaque path and message.
- A manifest that parses to nothing at all (an empty file), where indexing the parse result would itself raise: the model always has a manifest value.
- Entries without a `name` key, names that are not strings, and sections that are not lists: the check still runs on such data whatever the parser reported (two name-less defaults give names `[nil, nil]` and a duplicate-name line for an empty name), but the model covers string names only.
- Writing to standard error and `exit 1`: modelled as the outcome `Exited(text, 1)`, not as process effects. The model does not say what callers of `valid?` observe after the process exits.
- The exception raised when `default_versions` is present and `dependencies` is absent is modelled as the outcome `Raised` carrying only the exception's class, `NoMethodError`; its message text differs between Ruby versions and is not modelled.
- `ManifestValidationError` and `SCHEMA_FILE` (`lib/buildpack/manifest_validator.rb:7-9`): the former is never raised here, the latter only names the schema file.
- The version rule (`lib/buildpack/manifest_validator.rb:60-66`) is commented out in the code and is not modelled.
