/** Permission rules: pattern matching with a cache, deny before allow, overrides, bulk checks. */
module Permissions {
  import opened Options
  import opened Globs

  datatype Decision = Allowed | Denied | NotFound

  /** One category's rules; an absent key is `None`. */
  datatype Rules = Rules(denied: Option<seq<string>>, allowed: Option<seq<string>>, patterns: Option<seq<string>>,
                         operations: Option<seq<string>>, excluded: Option<seq<string>>)

  const PROPERTIES := "properties"

  /** Category to rules. */
  type Permissions = map<string, Rules>

  const NO_RULES := Rules(None, None, None, None, None)

  function Listed(o: Option<seq<string>>): seq<string> {
    if o.Some? then o.value else []
  }

  predicate IsScheme(p: string) {
    |p| >= 3 && p[|p| - 3..] == "://"
  }

  /** What a pattern stands for: a glob, or everything under a scheme such as `notes://`. */
  predicate Covers(pattern: string, target: string) {
    Glob(pattern, target) || (IsScheme(pattern) && pattern <= target)
  }

  ghost predicate CoversAny(patterns: seq<string>, target: string) {
    exists i :: 0 <= i < |patterns| && Covers(patterns[i], target)
  }

  /** The tests that come before the regular expression, for any target. */
  predicate MatchesSpec(target: string, pattern: string) {
    pattern == "*" || pattern == target || (IsScheme(pattern) && pattern <= target) || UpToNewline(pattern, target)
  }

  ghost predicate MatchesAnySpec(target: string, patterns: seq<string>) {
    exists i :: 0 <= i < |patterns| && MatchesSpec(target, patterns[i])
  }

  /** On a target without newlines, matching is covering. */
  lemma MatchesIsCovers(target: string, pattern: string)
    requires '\n' !in target
    ensures MatchesSpec(target, pattern) <==> Covers(pattern, target)
  {
    OneLine(pattern, target);
    if pattern == "*" { StarIsAnything(target); }
    if pattern == target { GlobItself(target); }
  }

  /** The targets on which matching is covering, whatever the pattern, are exactly those without
      newlines: the shortcuts before the expression do not save the others. */
  lemma CoveredOnLines(target: string)
    ensures (forall pattern :: MatchesSpec(target, pattern) <==> Covers(pattern, target)) <==> '\n' !in target
  {
    if '\n' !in target {
      forall pattern
        ensures MatchesSpec(target, pattern) <==> Covers(pattern, target)
      {
        MatchesIsCovers(target, pattern);
      }
    } else {
      var pattern := Marks(|target|);
      MarksMissNewlines(target);
      var i :| 0 <= i < |target| && target[i] == '\n';
      assert pattern[i] == '?' && pattern[0] == '?';
      assert |pattern| >= 3 ==> pattern[|pattern| - 3..][2] == '?';
      assert !MatchesSpec(target, pattern) && Covers(pattern, target);
    }
  }

  lemma MatchesAnyIsCovers(target: string, patterns: seq<string>)
    requires '\n' !in target
    ensures MatchesAnySpec(target, patterns) <==> CoversAny(patterns, target)
  {
    forall i | 0 <= i < |patterns|
      ensures MatchesSpec(target, patterns[i]) <==> Covers(patterns[i], target)
    {
      MatchesIsCovers(target, patterns[i]);
    }
  }

  /** The decision on rules, a target and an operation. */
  ghost function Decide(r: Rules, target: string, operation: string): Decision {
    if MatchesAnySpec(target, Listed(r.denied)) then Denied
    else if MatchesAnySpec(target, Listed(r.allowed)) then Allowed
    else if r.patterns.Some? && r.operations.Some? then
      if operation !in r.operations.value then Denied
      else if MatchesAnySpec(target, r.patterns.value) then
        if MatchesAnySpec(target, Listed(r.excluded)) then Denied else Allowed
      else if target == "" then NotFound
      else Denied
    else NotFound
  }

  ghost function DecideFor(effective: Option<Permissions>, category: string, target: string, operation: string): Decision {
    if effective.None? || category !in effective.value then NotFound
    else Decide(effective.value[category], target, operation)
  }

  // ---- the evaluator ----

  class PermissionEvaluator {
    /** Compiled expressions by pattern. */
    var patternCache: map<string, seq<Atom>>

    constructor ()
      ensures Valid()
    {
      patternCache := map[];
    }

    /** Any pattern may or may not be cached; what is cached is its own compilation. */
    ghost predicate Valid()
      reads this
    {
      forall p :: p in patternCache ==> Compile(GlobToRegex(p)) == Some(patternCache[p])
    }

    method MatchesPattern(target: string, pattern: string) returns (r: bool)
      requires Valid()
      modifies this`patternCache
      ensures Valid() && r == MatchesSpec(target, pattern)
    {
      RegexMatchIs(pattern, target);
      if pattern == "*" || pattern == target {
        return true;
      }
      if IsScheme(pattern) && pattern <= target {
        return true;
      }
      var regex: seq<Atom>;
      if pattern in patternCache {
        regex := patternCache[pattern];
      } else {
        TranslationCompiles(pattern);
        regex := Compile(GlobToRegex(pattern)).value;
        patternCache := patternCache[pattern := regex];
      }
      return MatchAtoms(regex, target);
    }

    method MatchesAnyPattern(target: string, patterns: seq<string>) returns (r: bool)
      requires Valid()
      modifies this`patternCache
      ensures Valid() && r == MatchesAnySpec(target, patterns)
    {
      var i := 0;
      while i < |patterns|
        invariant i <= |patterns| && Valid()
        invariant forall j :: 0 <= j < i ==> !MatchesSpec(target, patterns[j])
      {
        var hit := MatchesPattern(target, patterns[i]);
        if hit {
          return true;
        }
        i := i + 1;
      }
      return false;
    }

    method EvaluateRules(r: Rules, target: string, operation: string) returns (d: Decision)
      requires Valid()
      modifies this`patternCache
      ensures Valid() && d == Decide(r, target, operation)
    {
      if r.denied.Some? {
        var hit := MatchesAnyPattern(target, r.denied.value);
        if hit { return Denied; }
      }
      if r.allowed.Some? {
        var hit := MatchesAnyPattern(target, r.allowed.value);
        if hit { return Allowed; }
      }
      if r.patterns.Some? && r.operations.Some? {
        if operation !in r.operations.value {
          return Denied;
        }
        var hit := MatchesAnyPattern(target, r.patterns.value);
        if hit {
          var out := MatchesAnyPattern(target, Listed(r.excluded));
          return if out then Denied else Allowed;
        }
        return if target == "" then NotFound else Denied;
      }
      return NotFound;
    }

    /** `evaluate_permission` on the effective permissions it has just computed. */
    method EvaluatePermission(effective: Option<Permissions>, category: string, target: string, operation: string)
        returns (d: Decision)
      requires Valid()
      modifies this`patternCache
      ensures Valid() && d == DecideFor(effective, category, target, operation)
    {
      if effective.None? || effective.value == map[] {
        return NotFound;
      }
      if category !in effective.value || effective.value[category] == NO_RULES {
        return NotFound;
      }
      d := EvaluateRules(effective.value[category], target, operation);
    }

    /** One snapshot, one decision per path: the bulk form is the single form, pointwise. */
    method EvaluateBulk(effective: Option<Permissions>, paths: seq<string>, operation: string)
        returns (results: map<string, Decision>)
      requires Valid()
      modifies this`patternCache
      ensures Valid() && forall p :: p in results <==> p in paths
      ensures forall p :: p in results ==> results[p] == DecideFor(effective, PROPERTIES, p, operation)
    {
      if effective.None? || effective.value == map[] || PROPERTIES !in effective.value
         || effective.value[PROPERTIES] == NO_RULES {
        return map p | p in paths :: NotFound;
      }
      results := map[];
      var i := 0;
      while i < |paths|
        invariant i <= |paths| && Valid()
        invariant forall p :: p in results <==> p in paths[..i]
        invariant forall p :: p in results ==> results[p] == DecideFor(effective, PROPERTIES, p, operation)
      {
        var d := EvaluateRules(effective.value[PROPERTIES], paths[i], operation);
        results := results[paths[i] := d];
        assert paths[..i + 1] == paths[..i] + [paths[i]];
        i := i + 1;
      }
      assert paths[..i] == paths;
    }
  }

  // ---- what the rules mean ----

  ghost predicate CoveredBy(a: Option<seq<string>>, b: Option<seq<string>>) {
    forall p :: p in Listed(a) ==> p in Listed(b)
  }

  /** `s` grants at least what `r` grants: more allowed, patterns and operations, less denied and
      excluded, in whatever order and with whatever repetitions; an absent key is an empty one. */
  ghost predicate AtLeast(r: Rules, s: Rules) {
    && CoveredBy(s.denied, r.denied) && CoveredBy(s.excluded, r.excluded)
    && CoveredBy(r.allowed, s.allowed) && CoveredBy(r.patterns, s.patterns) && CoveredBy(r.operations, s.operations)
  }

  lemma MatchesAnyGrows(target: string, a: Option<seq<string>>, b: Option<seq<string>>)
    requires CoveredBy(a, b) && MatchesAnySpec(target, Listed(a))
    ensures MatchesAnySpec(target, Listed(b))
  {
    var i :| 0 <= i < |Listed(a)| && MatchesSpec(target, Listed(a)[i]);
    var p := Listed(a)[i];
    assert p in Listed(b);
    var j :| 0 <= j < |Listed(b)| && Listed(b)[j] == p;
  }

  /** Monotonicity: what is allowed stays allowed under rules that grant at least as much. */
  lemma AllowedGrows(r: Rules, s: Rules, target: string, operation: string)
    requires AtLeast(r, s) && Decide(r, target, operation) == Allowed
    ensures Decide(s, target, operation) == Allowed
  {
    if MatchesAnySpec(target, Listed(s.denied)) { MatchesAnyGrows(target, s.denied, r.denied); }
    if MatchesAnySpec(target, Listed(s.excluded)) { MatchesAnyGrows(target, s.excluded, r.excluded); }
    if MatchesAnySpec(target, Listed(r.allowed)) {
      MatchesAnyGrows(target, r.allowed, s.allowed);
    } else {
      MatchesAnyGrows(target, r.patterns, s.patterns);
      assert operation in Listed(r.operations);
    }
  }

  /** Order and repetition within the lists do not matter to what is allowed. */
  lemma OnlyTheSetsMatter(r: Rules, s: Rules, target: string, operation: string)
    requires AtLeast(r, s) && AtLeast(s, r)
    ensures Decide(r, target, operation) == Allowed <==> Decide(s, target, operation) == Allowed
  {
    if Decide(r, target, operation) == Allowed { AllowedGrows(r, s, target, operation); }
    if Decide(s, target, operation) == Allowed { AllowedGrows(s, r, target, operation); }
  }

  // ---- overrides ----

  /** Base entries first, then the new ones. */
  function Union(base: Option<seq<string>>, over: Option<seq<string>>): Option<seq<string>> {
    if over.None? then base else Some(Listed(base) + NotIn(over.value, Listed(base)))
  }

  function NotIn(s: seq<string>, base: seq<string>): (r: seq<string>)
    ensures forall p :: p in r <==> p in s && p !in base
  {
    if s == [] then [] else if s[0] in base then NotIn(s[1..], base) else [s[0]] + NotIn(s[1..], base)
  }

  function Override(base: Option<seq<string>>, over: Option<seq<string>>): Option<seq<string>> {
    if over.Some? then over else base
  }

  /** `merge_permissions` on one category present on both sides, with its default `merge_base`. */
  function Merge(base: Rules, over: Rules): Rules {
    Rules(Override(base.denied, over.denied), Override(base.allowed, over.allowed), Union(base.patterns, over.patterns),
          Override(base.operations, over.operations), Union(base.excluded, over.excluded))
  }

  lemma UnionHasBoth(base: Option<seq<string>>, over: Option<seq<string>>)
    ensures forall p :: p in Listed(Union(base, over)) <==> p in Listed(base) || p in Listed(over)
  {}

  /** An override cannot take a base exclusion away: a target the base excludes is allowed after
      the merge only through the `allowed` list. */
  lemma ExclusionsSurvive(base: Rules, over: Rules, target: string, operation: string)
    requires MatchesAnySpec(target, Listed(base.excluded))
    requires Decide(Merge(base, over), target, operation) == Allowed
    ensures MatchesAnySpec(target, Listed(Merge(base, over).allowed))
  {
    UnionHasBoth(base.excluded, over.excluded);
    MatchesAnyGrows(target, base.excluded, Merge(base, over).excluded);
  }

  /** An override that only adds patterns takes nothing away. */
  lemma AddedPatternsOnlyGrant(base: Rules, over: Rules, target: string, operation: string)
    requires over.denied.None? && over.allowed.None? && over.operations.None? && over.excluded.None?
    requires Decide(base, target, operation) == Allowed
    ensures Decide(Merge(base, over), target, operation) == Allowed
  {
    UnionHasBoth(base.patterns, over.patterns);
    AllowedGrows(base, Merge(base, over), target, operation);
  }

  /** The decision on a one-line target, in terms of what patterns stand for. */
  lemma AllowedMeans(r: Rules, target: string, operation: string)
    requires '\n' !in target
    ensures Decide(r, target, operation) == Allowed
       <==> && !CoversAny(Listed(r.denied), target)
            && (CoversAny(Listed(r.allowed), target)
                || (CoversAny(Listed(r.patterns), target) && operation in Listed(r.operations)
                    && !CoversAny(Listed(r.excluded), target)))
  {
    MatchesAnyIsCovers(target, Listed(r.denied));
    MatchesAnyIsCovers(target, Listed(r.allowed));
    MatchesAnyIsCovers(target, Listed(r.patterns));
    MatchesAnyIsCovers(target, Listed(r.excluded));
  }

  /** No decision at all: only when nothing matches and there are no pattern rules, or when the
      target is empty, as a listing's is. */
  lemma NotFoundMeans(r: Rules, target: string, operation: string)
    requires '\n' !in target
    ensures Decide(r, target, operation) == NotFound
       <==> && !CoversAny(Listed(r.denied), target) && !CoversAny(Listed(r.allowed), target)
            && (r.patterns.None? || r.operations.None?
                || (target == "" && operation in r.operations.value && !CoversAny(r.patterns.value, target)))
  {
    MatchesAnyIsCovers(target, Listed(r.denied));
    MatchesAnyIsCovers(target, Listed(r.allowed));
    MatchesAnyIsCovers(target, Listed(r.patterns));
  }

  lemma CoversUnion(base: Option<seq<string>>, over: Option<seq<string>>, target: string)
    ensures CoversAny(Listed(Union(base, over)), target) <==> CoversAny(Listed(base), target) || CoversAny(Listed(over), target)
  {
    UnionHasBoth(base, over);
    var u, b, o := Listed(Union(base, over)), Listed(base), Listed(over);
    if CoversAny(u, target) {
      var i :| 0 <= i < |u| && Covers(u[i], target);
      assert u[i] in b || u[i] in o;
    }
    if CoversAny(b, target) {
      var i :| 0 <= i < |b| && Covers(b[i], target);
      assert b[i] in u;
    }
    if CoversAny(o, target) {
      var i :| 0 <= i < |o| && Covers(o[i], target);
      assert o[i] in u;
    }
  }

  /** What is allowed after an override, in terms of both sides: its denied, allowed and operations
      lists stand in for those of the base where it has them; patterns and exclusions of both count. */
  lemma MergedMeans(base: Rules, over: Rules, target: string, operation: string)
    requires '\n' !in target
    ensures Decide(Merge(base, over), target, operation) == Allowed
       <==> && !CoversAny(if over.denied.Some? then over.denied.value else Listed(base.denied), target)
            && (CoversAny(if over.allowed.Some? then over.allowed.value else Listed(base.allowed), target)
                || (operation in (if over.operations.Some? then over.operations.value else Listed(base.operations))
                    && (CoversAny(Listed(base.patterns), target) || CoversAny(Listed(over.patterns), target))
                    && !CoversAny(Listed(base.excluded), target) && !CoversAny(Listed(over.excluded), target)))
  {
    AllowedMeans(Merge(base, over), target, operation);
    CoversUnion(base.patterns, over.patterns, target);
    CoversUnion(base.excluded, over.excluded, target);
  }
}
