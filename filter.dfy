/**
 * File-level filtering with the `only` and `ignore` options: `only` wins
 * over `ignore`, and a file is processed when neither is set.
 */
module FileFilter {
  import opened Ast

  /** An option value: one pattern, or an array of patterns */
  datatype Patterns = One(pattern: string) | Many(patterns: seq<string>)

  datatype FilterOptions = FilterOptions(only: Option<Patterns>, ignore: Option<Patterns>)

  /** Case-insensitive glob matching of a file path against one pattern */
  type Matcher = (string, string) -> bool

  /** JavaScript truthiness of an option: an empty string is falsy, an array never is */
  predicate IsSet(o: Option<Patterns>) {
    o.Some? && (o.value.Many? || o.value.pattern != "")
  }

  /** `Array.isArray(x) ? x : [x]` */
  function PatternList(ps: Patterns): seq<string> {
    if ps.Many? then ps.patterns else [ps.pattern]
  }

  /** Some pattern of the list matches the file */
  function MatchesAny(file: string, patterns: seq<string>, matches: Matcher): (r: bool)
    ensures r <==> exists i :: 0 <= i < |patterns| && matches(file, patterns[i])
  {
    if patterns == [] then false
    else matches(file, patterns[0]) || MatchesAny(file, patterns[1..], matches)
  }

  /** `micromatch([file], patterns)`: the files of the one-element list that match */
  function Micromatch(file: string, patterns: seq<string>, matches: Matcher): (r: seq<string>)
    ensures |r| <= 1
    ensures r == [file] <==> exists i :: 0 <= i < |patterns| && matches(file, patterns[i])
  {
    if MatchesAny(file, patterns, matches) then [file] else []
  }

  /**
   * `skip(opts, file)`: with `only` set, skip the file iff no `only` pattern
   * matches; otherwise skip it iff `ignore` is set and one of its patterns
   * matches.
   */
  function Skip(opts: FilterOptions, file: string, matches: Matcher): (r: bool)
    ensures IsSet(opts.only) ==>
      (r <==> forall i :: 0 <= i < |PatternList(opts.only.value)| ==> !matches(file, PatternList(opts.only.value)[i]))
    ensures !IsSet(opts.only) && IsSet(opts.ignore) ==>
      (r <==> exists i :: 0 <= i < |PatternList(opts.ignore.value)| && matches(file, PatternList(opts.ignore.value)[i]))
    ensures !IsSet(opts.only) && !IsSet(opts.ignore) ==> !r
  {
    if IsSet(opts.only) then
      |Micromatch(file, PatternList(opts.only.value), matches)| <= 0
    else if IsSet(opts.ignore) then
      |Micromatch(file, PatternList(opts.ignore.value), matches)| > 0
    else
      false
  }

  /** With `only` set, `ignore` is never consulted. */
  lemma OnlyOverridesIgnore(only: Patterns, ignore1: Option<Patterns>, ignore2: Option<Patterns>, file: string, matches: Matcher)
    requires IsSet(Some(only))
    ensures Skip(FilterOptions(Some(only), ignore1), file, matches) == Skip(FilterOptions(Some(only), ignore2), file, matches)
  {
  }

  /** A single pattern behaves like a one-element array, in either option. */
  lemma SinglePatternIsList(p: string, other: Option<Patterns>, file: string, matches: Matcher)
    requires p != ""
    ensures Skip(FilterOptions(Some(One(p)), other), file, matches) == Skip(FilterOptions(Some(Many([p])), other), file, matches)
    ensures Skip(FilterOptions(other, Some(One(p))), file, matches) == Skip(FilterOptions(other, Some(Many([p]))), file, matches)
  {
  }

  /** An empty `only` array is set, and skips every file. */
  lemma EmptyOnlySkipsEverything(ignore: Option<Patterns>, file: string, matches: Matcher)
    ensures Skip(FilterOptions(Some(Many([])), ignore), file, matches)
  {
  }

  /** An empty-string option is unset: `only: ''` falls through to `ignore`. */
  lemma EmptyStringOnlyIsUnset(ignore: Option<Patterns>, file: string, matches: Matcher)
    ensures Skip(FilterOptions(Some(One("")), ignore), file, matches) == Skip(FilterOptions(None, ignore), file, matches)
  {
  }
}
