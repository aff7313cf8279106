/** Embedded migration files: which sets of files load, and in which order. */
module MigrationFiles {
  import opened Domain
  import opened Text
  import opened Decimal

  datatype Migration = Migration(version: nat, name: string, sql: string, checksum: string)

  const PREFIX := "migrations/"
  const SUFFIX := ".sql"
  const DIGITS: nat := 6

  predicate IsNameChar(c: char) {
    'a' <= c <= 'z' || '0' <= c <= '9' || c == '_'
  }

  predicate IsName(s: string) {
    s != "" && 'a' <= s[0] <= 'z' && forall i :: 0 <= i < |s| ==> IsNameChar(s[i])
  }

  /** `migrations/`, six digits, an underscore, a lower-case name, `.sql`. */
  predicate ValidPath(path: string) {
    && |path| > |PREFIX| + DIGITS + 1 + |SUFFIX|
    && PREFIX <= path
    && AllDigits(path[|PREFIX|..|PREFIX| + DIGITS])
    && path[|PREFIX| + DIGITS] == '_'
    && IsName(path[|PREFIX| + DIGITS + 1..|path| - |SUFFIX|])
    && path[|path| - |SUFFIX|..] == SUFFIX
  }

  function VersionOf(path: string): nat
    requires ValidPath(path)
  {
    DigitsValue(path[|PREFIX|..|PREFIX| + DIGITS])
  }

  function NameOf(path: string): string
    requires ValidPath(path)
  {
    path[|PREFIX| + DIGITS + 1..|path| - |SUFFIX|]
  }

  /** A path is `migrations/`, a six-digit version, an underscore, a name and `.sql`. */
  lemma PathOf(digits: string, name: string)
    requires |digits| == 6 && AllDigits(digits) && IsName(name)
    ensures var path := "migrations/" + digits + "_" + name + ".sql";
            ValidPath(path) && VersionOf(path) == DigitsValue(digits) && NameOf(path) == name
  {
    FourParts(PREFIX, digits, name, SUFFIX);
  }

  lemma FourParts(head: string, digits: string, name: string, tail: string)
    ensures var path, n, m := head + digits + "_" + name + tail, |head|, |head| + |digits|;
            && head <= path && |path| == m + 1 + |name| + |tail|
            && path[n..m] == digits && path[m] == '_'
            && path[m + 1..|path| - |tail|] == name && path[|path| - |tail|..] == tail
  {
  }

  lemma PathIs(path: string)
    requires ValidPath(path)
    ensures var digits := path[11..17];
            && path == "migrations/" + digits + "_" + NameOf(path) + ".sql"
            && AllDigits(digits) && IsName(NameOf(path)) && VersionOf(path) == DigitsValue(digits)
  {
    assert path[..11] == "migrations/";
    assert path == path[..11] + path[11..17] + [path[17]] + path[18..|path| - 4] + path[|path| - 4..];
  }

  predicate Blank(contents: string) {
    TrimSpace(contents) == ""
  }

  /** The versions of the files are exactly 1 to the number of files. */
  ghost predicate Complete(paths: set<string>) {
    && (forall path :: path in paths ==> ValidPath(path))
    && (forall version: nat :: 1 <= version <= |paths| ==> HasVersion(paths, version))
  }

  ghost predicate HasVersion(paths: set<string>, version: nat) {
    exists path :: path in paths && ValidPath(path) && VersionOf(path) == version
  }

  ghost predicate Loadable(paths: set<string>, contents: map<string, string>) {
    && paths != {}
    && Complete(paths)
    && forall path :: path in paths ==> Readable(path, contents)
  }

  // ----- byte order of zero-padded names is numeric order -----

  lemma {:induction false} BelowExtend(a: string, b: string, x: string, y: string)
    requires |a| == |b| && Below(a, b)
    ensures Below(a + x, b + y)
    decreases |a|
  {
    if a[0] == b[0] {
      BelowExtend(a[1..], b[1..], x, y);
      assert (a + x)[1..] == a[1..] + x && (b + y)[1..] == b[1..] + y;
    }
  }

  lemma {:induction false} BelowBehind(p: string, a: string, b: string)
    requires Below(a, b)
    ensures Below(p + a, p + b)
    decreases |p|
  {
    if p == "" {
      assert p + a == a && p + b == b;
    } else {
      BelowBehind(p[1..], a, b);
      assert (p + a)[1..] == p[1..] + a && (p + b)[1..] == p[1..] + b;
    }
  }

  lemma {:induction false} DigitsInjective(a: string, b: string)
    requires AllDigits(a) && AllDigits(b) && |a| == |b| && DigitsValue(a) == DigitsValue(b)
    ensures a == b
    decreases |a|
  {
    if a != "" {
      var n := |a| - 1;
      assert DigitsValue(a[..n]) == DigitsValue(b[..n]) && a[n] == b[n];
      DigitsInjective(a[..n], b[..n]);
      assert a == a[..n] + [a[n]] && b == b[..n] + [b[n]];
    }
  }

  lemma {:induction false} DigitsOrder(a: string, b: string)
    requires AllDigits(a) && AllDigits(b) && |a| == |b| && DigitsValue(a) < DigitsValue(b)
    ensures Below(a, b)
    decreases |a|
  {
    var n := |a| - 1;
    assert a == a[..n] + [a[n]] && b == b[..n] + [b[n]];
    if DigitsValue(a[..n]) < DigitsValue(b[..n]) {
      DigitsOrder(a[..n], b[..n]);
      BelowExtend(a[..n], b[..n], [a[n]], [b[n]]);
    } else {
      assert DigitsValue(a[..n]) == DigitsValue(b[..n]) && a[n] < b[n];
      DigitsInjective(a[..n], b[..n]);
      BelowBehind(a[..n], [a[n]], [b[n]]);
    }
  }

  lemma LowerVersionSortsFirst(a: string, b: string)
    requires ValidPath(a) && ValidPath(b) && VersionOf(a) < VersionOf(b)
    ensures Below(a, b)
  {
    var n, m := |PREFIX|, |PREFIX| + DIGITS;
    DigitsOrder(a[n..m], b[n..m]);
    BelowBetween(PREFIX, a[n..m], b[n..m], a[m..], b[m..]);
    ThreeParts(a, PREFIX, m);
    ThreeParts(b, PREFIX, m);
  }

  lemma BelowBetween(p: string, a: string, b: string, x: string, y: string)
    requires |a| == |b| && Below(a, b)
    ensures Below(p + (a + x), p + (b + y))
  {
    BelowExtend(a, b, x, y);
    BelowBehind(p, a + x, b + y);
  }

  lemma ThreeParts(s: string, p: string, m: nat)
    requires p <= s && |p| <= m <= |s|
    ensures s == p + (s[|p|..m] + s[m..])
  {
  }

  // ----- sorted complete versions are 1, 2, 3, ... -----

  ghost predicate Onto(v: seq<nat>) {
    forall k: nat :: 1 <= k <= |v| ==> k in v
  }

  predicate Nondecreasing(v: seq<nat>) {
    forall i, j :: 0 <= i < j < |v| ==> v[i] <= v[j]
  }

  lemma {:induction false} IndexAtLeast(v: seq<nat>, k: nat, i: nat)
    requires Nondecreasing(v) && Onto(v) && 1 <= k <= |v| && i < |v| && v[i] == k
    ensures k - 1 <= i
    decreases k
  {
    if k > 1 {
      var before: nat := k - 1;
      assert before in v;
      var j :| 0 <= j < |v| && v[j] == before;
      IndexAtLeast(v, k - 1, j);
    }
  }

  lemma {:induction false} IndexAtMost(v: seq<nat>, k: nat, i: nat)
    requires Nondecreasing(v) && Onto(v) && 1 <= k <= |v| && i < |v| && v[i] == k
    ensures i <= k - 1
    decreases |v| - k
  {
    if k < |v| {
      var after: nat := k + 1;
      assert after in v;
      var j :| 0 <= j < |v| && v[j] == after;
      IndexAtMost(v, k + 1, j);
    }
  }

  lemma OntoIsIdentity(v: seq<nat>)
    requires Nondecreasing(v) && Onto(v)
    ensures forall i :: 0 <= i < |v| ==> v[i] == i + 1
  {
    forall i | 0 <= i < |v| ensures v[i] == i + 1 {
      var version: nat := i + 1;
      assert version in v;
      var j :| 0 <= j < |v| && v[j] == version;
      IndexAtLeast(v, i + 1, j);
      IndexAtMost(v, i + 1, j);
    }
  }

  ghost predicate Sequential(sorted: seq<string>) {
    forall i :: 0 <= i < |sorted| ==> ValidPath(sorted[i]) && VersionOf(sorted[i]) == i + 1
  }

  lemma {:induction false} SortedCardinality(sorted: seq<string>)
    requires StrictlySorted(sorted)
    ensures |set x | x in sorted| == |sorted|
    decreases |sorted|
  {
    if sorted != [] {
      var rest := sorted[1..];
      SortedCardinality(rest);
      TailMembers(sorted, sorted[0]);
      assert (set x | x in sorted) == (set x | x in rest) + {sorted[0]};
    }
  }

  lemma SequentialIsComplete(sorted: seq<string>, paths: set<string>)
    requires StrictlySorted(sorted) && forall x :: x in sorted <==> x in paths
    ensures |sorted| == |paths|
    ensures Sequential(sorted) <==> Complete(paths)
  {
    SortedCardinality(sorted);
    assert paths == set x | x in sorted;
    if Sequential(sorted) {
      forall version: nat | 1 <= version <= |paths| ensures HasVersion(paths, version) {
        assert sorted[version - 1] in paths;
      }
    }
    if Complete(paths) {
      var v := seq(|sorted|, i requires 0 <= i < |sorted| => VersionOf(sorted[i]));
      assert Nondecreasing(v) by {
        forall i, j | 0 <= i < j < |v| ensures v[i] <= v[j] {
          if v[j] < v[i] {
            LowerVersionSortsFirst(sorted[j], sorted[i]);
            BelowTotal(sorted[i], sorted[j]);
          }
        }
      }
      forall k: nat | 1 <= k <= |v| ensures k in v {
        assert HasVersion(paths, k);
        var path :| path in paths && VersionOf(path) == k;
        var i :| 0 <= i < |sorted| && sorted[i] == path;
        assert v[i] == k;
      }
      OntoIsIdentity(v);
      forall i | 0 <= i < |sorted| ensures ValidPath(sorted[i]) && VersionOf(sorted[i]) == i + 1 {
        assert v[i] == i + 1;
      }
    }
  }

  predicate Readable(path: string, contents: map<string, string>) {
    path in contents && !Blank(contents[path])
  }

  function Entry(path: string, contents: map<string, string>, checksum: string -> string): Migration
    requires ValidPath(path) && path in contents
  {
    Migration(VersionOf(path), NameOf(path), contents[path], checksum(contents[path]))
  }

  /** `migration` is the entry of the only file of its version. */
  ghost predicate LoadedFrom(
    paths: set<string>, contents: map<string, string>, checksum: string -> string, version: nat, migration: Migration
  ) {
    exists path :: Describes(paths, contents, checksum, path, version, migration)
  }

  ghost predicate Describes(
    paths: set<string>, contents: map<string, string>, checksum: string -> string, path: string, version: nat,
    migration: Migration
  ) {
    && path in paths && ValidPath(path) && path in contents
    && VersionOf(path) == version
    && migration == Entry(path, contents, checksum)
  }

  /** The file belongs at place `i`, and can be read. */
  predicate Fits(path: string, i: nat, contents: map<string, string>) {
    ValidPath(path) && VersionOf(path) == i + 1 && Readable(path, contents)
  }

  /** Checks the sorted files one by one, stopping at the first that does not fit. */
  method LoadSorted(sorted: seq<string>, contents: map<string, string>, checksum: string -> string)
    returns (result: Option<seq<Migration>>)
    ensures result.Some? <==> Sequential(sorted) && forall i :: 0 <= i < |sorted| ==> Readable(sorted[i], contents)
    ensures result.Some? ==> |result.value| == |sorted|
    ensures result.Some? ==>
      forall i :: 0 <= i < |sorted| ==> result.value[i] == Entry(sorted[i], contents, checksum)
  {
    var migrations: seq<Migration> := [];
    var seenVersions: set<nat> := {};
    for index := 0 to |sorted|
      invariant |migrations| == index
      invariant forall i :: 0 <= i < index ==> Fits(sorted[i], i, contents)
      invariant forall i :: 0 <= i < index ==> migrations[i] == Entry(sorted[i], contents, checksum)
      invariant forall v :: v in seenVersions <==> 1 <= v <= index
    {
      var path := sorted[index];
      if !ValidPath(path) {
        return None;
      }
      var version := VersionOf(path);
      if version <= 0 || version in seenVersions {
        return None;
      }
      seenVersions := seenVersions + {version};
      if version != index + 1 {
        return None;
      }
      if path !in contents || Blank(contents[path]) {
        return None;
      }
      migrations := migrations + [Entry(path, contents, checksum)];
    }
    result := Some(migrations);
  }

  /** Enumerates the files in any order and sorts them. */
  method Glob(paths: set<string>) returns (sorted: seq<string>)
    ensures StrictlySorted(sorted) && forall x :: x in sorted <==> x in paths
  {
    var found: seq<string> := [];
    var pending := paths;
    while pending != {}
      invariant forall x :: x in paths <==> x in found || x in pending
      decreases |pending|
    {
      var path :| path in pending;
      found := found + [path];
      pending := pending - {path};
    }
    sorted := SortedSet(found);
  }

  lemma SortedIsLoadable(sorted: seq<string>, paths: set<string>, contents: map<string, string>)
    requires StrictlySorted(sorted) && (forall x :: x in sorted <==> x in paths) && paths != {}
    ensures |sorted| == |paths|
    ensures Loadable(paths, contents)
       <==> Sequential(sorted) && forall i :: 0 <= i < |sorted| ==> Readable(sorted[i], contents)
  {
    SequentialIsComplete(sorted, paths);
    assert forall i :: 0 <= i < |sorted| ==> sorted[i] in paths;
    if forall i :: 0 <= i < |sorted| ==> Readable(sorted[i], contents) {
      forall path | path in paths ensures Readable(path, contents) {
        assert path in sorted;
      }
    }
  }

  /** Sorts the files and checks them one by one. It succeeds exactly when they are
      readable, non-blank, validly named and numbered 1 to n, and then entry `i` is the
      file of version `i + 1`. */
  method LoadMigrations(paths: set<string>, contents: map<string, string>, checksum: string -> string)
    returns (result: Option<seq<Migration>>)
    ensures result.Some? <==> Loadable(paths, contents)
    ensures result.Some? ==> |result.value| == |paths|
    ensures result.Some? ==>
      forall i :: 0 <= i < |result.value| ==> LoadedFrom(paths, contents, checksum, i + 1, result.value[i])
  {
    if paths == {} {
      return None;
    }
    var sorted := Glob(paths);
    SortedIsLoadable(sorted, paths, contents);
    result := LoadSorted(sorted, contents, checksum);
    if result.Some? {
      forall i | 0 <= i < |sorted| ensures LoadedFrom(paths, contents, checksum, i + 1, result.value[i]) {
        assert Describes(paths, contents, checksum, sorted[i], i + 1, result.value[i]);
      }
    }
  }

  /** A version names at most one file of a complete set. */
  lemma VersionsAreDistinct(paths: set<string>, a: string, b: string)
    requires Complete(paths) && a in paths && b in paths && VersionOf(a) == VersionOf(b)
    ensures a == b
  {
    var sorted := Sorted(paths);
    SequentialIsComplete(sorted, paths);
    var i :| 0 <= i < |sorted| && sorted[i] == a;
    var j :| 0 <= j < |sorted| && sorted[j] == b;
  }

  ghost function Sorted(paths: set<string>): (sorted: seq<string>)
    ensures StrictlySorted(sorted) && forall x :: x in sorted <==> x in paths
  {
    if paths == {} then []
    else
      var path :| path in paths;
      assert paths == paths - {path} + {path};
      Insert(path, Sorted(paths - {path}))
  }
}
