/** The worklist that lists the packages a declaration file imports, directly or through others. */
module DeclarationImports {
  import opened Basics

  /** A declaration file: its bare import specifiers and the files its relative imports resolve to. */
  datatype Source = Source(bareImports: seq<string>, relativeImports: seq<string>)

  type Files = map<string, Source>

  datatype ImportError = NotPacked(file: string)

  /** The text before the first `/`, and what follows it. */
  function BeforeSlash(s: string): string
  {
    if s == "" || s[0] == '/' then "" else [s[0]] + BeforeSlash(s[1..])
  }

  function AfterSlash(s: string): Option<string>
  {
    if s == "" then None else if s[0] == '/' then Some(s[1..]) else AfterSlash(s[1..])
  }

  /** A scoped package keeps two segments of its specifier, any other one. */
  function PackageNameOf(specifier: string): string
  {
    if specifier != "" && specifier[0] == '@' && AfterSlash(specifier).Some?
    then BeforeSlash(specifier) + "/" + BeforeSlash(AfterSlash(specifier).value)
    else BeforeSlash(specifier)
  }

  /** The segment of the specifier that starts at `from` ends at `to`. */
  ghost predicate SegmentEnds(s: string, from: nat, to: nat)
  {
    && from <= to <= |s|
    && (forall k :: from <= k < to ==> s[k] != '/')
    && (to < |s| ==> s[to] == '/')
  }

  lemma {:induction false} FirstSegment(s: string) returns (to: nat)
    ensures SegmentEnds(s, 0, to) && BeforeSlash(s) == s[..to]
    ensures AfterSlash(s) == if to < |s| then Some(s[to + 1..]) else None
  {
    to := 0;
    if s != "" && s[0] != '/' {
      var n := FirstSegment(s[1..]);
      to := n + 1;
      assert forall k :: 1 <= k < |s| ==> s[k] == s[1..][k - 1];
      assert s[..to] == [s[0]] + s[1..][..n];
    }
  }

  /** The package name is the first segment of the specifier, or its first two when it starts with `@`. */
  lemma PackageNameIsExact(s: string) returns (one: nat, two: nat)
    ensures SegmentEnds(s, 0, one)
    ensures s == "" || s[0] != '@' || one == |s| ==> PackageNameOf(s) == s[..one]
    ensures s != "" && s[0] == '@' && one < |s| ==> SegmentEnds(s, one + 1, two) && PackageNameOf(s) == s[..two]
  {
    one := FirstSegment(s);
    two := one;
    if one < |s| {
      var rest := s[one + 1..];
      var n := FirstSegment(rest);
      two := one + 1 + n;
      assert s[..two] == s[..one] + "/" + rest[..n];
      forall k | one + 1 <= k < two ensures s[k] != '/' { assert s[k] == rest[k - one - 1]; }
      if two < |s| { assert s[two] == rest[n]; }
    }
  }

  const NODE_PREFIX := "node:"

  predicate Counts(specifier: string)
  {
    specifier != "" && !(NODE_PREFIX <= specifier)
  }

  function PackagesOf(source: Source): set<string>
  {
    set i | 0 <= i < |source.bareImports| && Counts(source.bareImports[i]) :: PackageNameOf(source.bareImports[i])
  }

  /** The `i`-th bare import is of the package; empty specifiers and Node's own modules are of none. */
  ghost predicate ImportsAt(source: Source, i: int, name: string)
  {
    && 0 <= i < |source.bareImports|
    && source.bareImports[i] != "" && !("node:" <= source.bareImports[i])
    && PackageNameOf(source.bareImports[i]) == name
  }

  lemma PackagesExact(source: Source, name: string)
    ensures name in PackagesOf(source) <==> exists i :: ImportsAt(source, i, name)
  {
    if name in PackagesOf(source) {
      var i :| 0 <= i < |source.bareImports| && Counts(source.bareImports[i])
               && PackageNameOf(source.bareImports[i]) == name;
      assert ImportsAt(source, i, name);
    }
    if i :| ImportsAt(source, i, name) {
      assert Counts(source.bareImports[i]);
    }
  }

  // ----- Reachability -----

  /** A chain of relative imports from file to file; all but the last exist. */
  ghost predicate ImportPath(files: Files, p: seq<string>)
  {
    && |p| > 0
    && forall k :: 0 <= k < |p| - 1 ==> p[k] in files && p[k + 1] in files[p[k]].relativeImports
  }

  ghost predicate Reachable(files: Files, entry: string, file: string)
  {
    exists p :: ImportPath(files, p) && p[0] == entry && p[|p| - 1] == file
  }

  lemma ReachableStep(files: Files, entry: string, file: string, next: string)
    requires Reachable(files, entry, file) && file in files && next in files[file].relativeImports
    ensures Reachable(files, entry, next)
  {
    var p :| ImportPath(files, p) && p[0] == entry && p[|p| - 1] == file;
    var q := p + [next];
    assert ImportPath(files, q) && q[0] == entry && q[|q| - 1] == next;
  }

  lemma ReachableEntry(files: Files, entry: string)
    ensures Reachable(files, entry, entry)
  {
    assert ImportPath(files, [entry]);
  }

  /** A closed set of existing files that holds the entry holds everything reachable. */
  lemma {:induction false} ClosedHoldsPath(files: Files, closed: set<string>, p: seq<string>, n: nat)
    requires ImportPath(files, p) && n < |p| && p[0] in closed
    requires forall f :: f in closed ==> f in files && forall g :: g in files[f].relativeImports ==> g in closed
    ensures p[n] in closed
  {
    if n > 0 {
      ClosedHoldsPath(files, closed, p, n - 1);
    }
  }

  /** The work left: pending files are reachable, visited files exist, and imports of visited files are known. */
  ghost predicate Exploring(files: Files, entry: string, pending: seq<string>, seen: set<string>, packages: set<string>)
  {
    && (forall f :: f in pending || f in seen ==> Reachable(files, entry, f))
    && (entry in pending || entry in seen)
    && seen <= files.Keys
    && (forall f, g :: f in seen && g in files[f].relativeImports ==> g in pending || g in seen)
    && packages == (set f, n | f in seen && n in PackagesOf(files[f]) :: n)
  }

  /** The loop over the bare imports of one file. */
  method AddPackages(packages: set<string>, source: Source) returns (r: set<string>)
    ensures r == packages + PackagesOf(source)
  {
    r := packages;
    var bare := source.bareImports;
    for k := 0 to |bare|
      invariant r == packages + PackagesOf(Source(bare[..k], []))
    {
      if bare[k] != "" && !(NODE_PREFIX <= bare[k]) {
        r := r + {PackageNameOf(bare[k])};
      }
    }
    assert bare[..|bare|] == bare;
    assert PackagesOf(Source(bare, [])) == PackagesOf(source);
  }

  /** The loop over the relative imports of one file. */
  method PushAll(pending: seq<string>, more: seq<string>) returns (r: seq<string>)
    ensures r == pending + more
  {
    r := pending;
    for j := 0 to |more|
      invariant r == pending + more[..j]
    {
      r := r + [more[j]];
    }
    assert more[..|more|] == more;
  }

  /** `declarationImports`: the packages of every reachable file, or an error for a reachable file that is missing. */
  method ListImports(files: Files, entry: string) returns (r: Result<set<string>, ImportError>)
    ensures r.Ok? <==> forall f :: Reachable(files, entry, f) ==> f in files
    ensures r.Err? ==> Reachable(files, entry, r.error.file) && r.error.file !in files
    ensures r.Ok? ==>
              forall n :: n in r.value <==>
                exists f, i :: Reachable(files, entry, f) && f in files && ImportsAt(files[f], i, n)
  {
    hide PackagesOf, Reachable;
    var packages: set<string> := {};
    var seen: set<string> := {};
    var pending := [entry];
    ReachableEntry(files, entry);
    while pending != []
      invariant Exploring(files, entry, pending, seen, packages)
      decreases files.Keys - seen, |pending|
    {
      var file := pending[|pending| - 1];
      ghost var stack := pending;
      pending := pending[..|pending| - 1];
      if file in seen {
        continue;
      }
      assert Reachable(files, entry, file);
      if file !in files {
        return Err(NotPacked(file));
      }
      ghost var before, known := seen, packages;
      seen := seen + {file};
      packages := AddPackages(packages, files[file]);
      pending := PushAll(pending, files[file].relativeImports);
      VisitKeepsExploring(files, entry, stack, before, known);
    }
    Explored(files, entry, seen, packages);
    forall n ensures n in packages <==>
                       exists f, i :: Reachable(files, entry, f) && f in files && ImportsAt(files[f], i, n)
    {
      if n in packages {
        var f :| Reachable(files, entry, f) && f in files && n in PackagesOf(files[f]);
        PackagesExact(files[f], n);
      }
      if f, i :| Reachable(files, entry, f) && f in files && ImportsAt(files[f], i, n) {
        PackagesExact(files[f], n);
      }
    }
    r := Ok(packages);
  }

  /** Visiting the file on top of the stack keeps the invariant. */
  lemma VisitKeepsExploring(files: Files, entry: string, stack: seq<string>, seen: set<string>, packages: set<string>)
    requires stack != [] && Exploring(files, entry, stack, seen, packages)
    requires stack[|stack| - 1] in files
    ensures var file := stack[|stack| - 1];
            Exploring(files, entry, stack[..|stack| - 1] + files[file].relativeImports, seen + {file},
                      packages + PackagesOf(files[file]))
  {
    var file, rest := stack[|stack| - 1], stack[..|stack| - 1];
    assert stack == rest + [file];
    var pending, after := rest + files[file].relativeImports, seen + {file};
    forall f | f in pending || f in after ensures Reachable(files, entry, f) {
      if f in files[file].relativeImports && f !in rest {
        ReachableStep(files, entry, file, f);
      }
    }
    assert packages + PackagesOf(files[file]) == (set f, n | f in after && n in PackagesOf(files[f]) :: n);
  }

  lemma Explored(files: Files, entry: string, seen: set<string>, packages: set<string>)
    requires Exploring(files, entry, [], seen, packages)
    ensures forall f :: Reachable(files, entry, f) <==> f in seen
    ensures forall n :: n in packages <==>
              exists f :: Reachable(files, entry, f) && f in files && n in PackagesOf(files[f])
  {
    forall f | Reachable(files, entry, f) ensures f in seen {
      var p :| ImportPath(files, p) && p[0] == entry && p[|p| - 1] == f;
      ClosedHoldsPath(files, seen, p, |p| - 1);
    }
  }
}
