/** Choosing which migration files to apply, and in which order. */
module Planner {
  import opened Wrappers
  import opened PyStrings
  import opened MigrationFilename

  /** `version()['version'] or ''`: a missing version compares as the empty string. */
  function CurrentOrEmpty(current: Option<string>): string {
    current.GetOr("")
  }

  /** Python truthiness of the optional target version: None and "" both mean "no target". */
  predicate HasTarget(target: Option<string>) {
    target.Some? && target.value != ""
  }

  /** The version a filename carries when read in direction `d`, or "" when it carries none;
      the planner treats the two alike (`if not proposed_version`). */
  function ProposedVersion(filename: string, d: Direction): string {
    ExtractMigrationInformation(filename, d).version.GetOr("")
  }

  /** `shouldApplyMigration(filename, target)` against the version snapshot `current`. It never
      applies a file when the target is the current version, nor a file that carries no
      version in the direction it chose: up when there is no target or the target is above the
      current version, down otherwise. */
  function ShouldApplyMigration(filename: string, target: Option<string>, current: Option<string>): (r: bool)
    ensures HasTarget(target) && target.value == CurrentOrEmpty(current) ==> !r
    ensures r ==> ProposedVersion(filename,
      if !HasTarget(target) || Less(CurrentOrEmpty(current), target.value) then Up else Down) != ""
  {
    var cur := CurrentOrEmpty(current);
    if HasTarget(target) && target.value == cur then false
    else
      var direction := if !HasTarget(target) || Less(cur, target.value) then Up else Down;
      var proposed := ExtractMigrationInformation(filename, direction).version;
      if proposed.None? || proposed.value == "" then false
      else if direction == Up then
        if LessEq(proposed.value, cur) then false
        else if HasTarget(target) && Less(target.value, proposed.value) then false
        else true
      else
        if LessEq(cur, proposed.value) then false
        else if HasTarget(target) && Less(proposed.value, target.value) then false
        else true
  }

  /** The window of versions `shouldApplyMigration` accepts. Without a target, or with a target
      above the current version, it accepts the `up` files whose version lies in
      (current, target]. Otherwise it accepts the `down` files whose version lies in
      [target, current), which is empty when the target is the current version. */
  lemma ShouldApplyWindow(filename: string, target: Option<string>, current: Option<string>)
    ensures var cur := CurrentOrEmpty(current);
      var up := ProposedVersion(filename, Up);
      !HasTarget(target) ==>
        (ShouldApplyMigration(filename, target, current) <==> up != "" && Less(cur, up))
    ensures var cur := CurrentOrEmpty(current);
      var up := ProposedVersion(filename, Up);
      HasTarget(target) && Less(cur, target.value) ==>
        (ShouldApplyMigration(filename, target, current) <==>
          up != "" && Less(cur, up) && LessEq(up, target.value))
    ensures var cur := CurrentOrEmpty(current);
      var down := ProposedVersion(filename, Down);
      HasTarget(target) && !Less(cur, target.value) ==>
        (ShouldApplyMigration(filename, target, current) <==>
          down != "" && LessEq(target.value, down) && Less(down, cur))
  {
    var cur := CurrentOrEmpty(current);
    var up := ProposedVersion(filename, Up);
    var down := ProposedVersion(filename, Down);
    LessTrichotomous(up, cur);
    LessIrreflexive(up);
    LessIrreflexive(down);
    if HasTarget(target) {
      var t := target.value;
      LessTrichotomous(up, t);
      LessTrichotomous(down, t);
      LessTrichotomous(down, cur);
      if t == cur {
        LessTrichotomous(down, cur);
        if LessEq(t, down) && Less(down, cur) {
          assert false;
        }
      }
    }
  }

  /** `list(filter(shouldApplyMigration, listing))` as the `up` command runs it: with no target,
      against the cached snapshot. It keeps exactly the listed files that are accepted. */
  function Pending(listing: seq<string>, current: Option<string>): (r: seq<string>)
    ensures |r| <= |listing|
    ensures forall f :: f in r <==> f in listing && ShouldApplyMigration(f, None, current)
  {
    if listing == [] then []
    else
      var rest := Pending(listing[1..], current);
      assert forall f :: f in listing <==> f == listing[0] || f in listing[1..];
      if ShouldApplyMigration(listing[0], None, current) then [listing[0]] + rest else rest
  }

  /** When `shouldApplyMigration` accepts no listed file, nothing is pending. */
  lemma {:induction false} NothingAcceptedPendsNothing(listing: seq<string>, current: Option<string>)
    requires forall f :: f in listing ==> !ShouldApplyMigration(f, None, current)
    ensures Pending(listing, current) == []
  {
    if listing != [] {
      assert listing[0] in listing;
      NothingAcceptedPendsNothing(listing[1..], current);
    }
  }

  /** The key the listing is sorted by: the version parsed with the `up` suffix. */
  function SortKey(filename: string): string {
    ProposedVersion(filename, Up)
  }

  /** `files` is in ascending order of `key`. */
  predicate SortedBy(files: seq<string>, key: string -> string) {
    forall i, j :: 0 <= i < j < |files| ==> LessEq(key(files[i]), key(files[j]))
  }

  predicate SortedByVersion(files: seq<string>) {
    SortedBy(files, SortKey)
  }

  /** In a sorted sequence no key exceeds the last one. */
  lemma SortedLastIsLargest(files: seq<string>, key: string -> string, f: string)
    requires SortedBy(files, key) && f in files
    ensures LessEq(key(f), key(files[|files| - 1]))
  {
    var k :| 0 <= k < |files| && files[k] == f;
    if k < |files| - 1 {
      assert LessEq(key(files[k]), key(files[|files| - 1]));
    }
  }

  /** Puts `f` in front of the first file of `files` whose key is not smaller than its own. */
  function InsertBy(f: string, files: seq<string>, key: string -> string): (r: seq<string>)
    ensures multiset(r) == multiset(files) + multiset{f}
  {
    if files == [] || LessEq(key(f), key(files[0])) then [f] + files
    else
      assert files == [files[0]] + files[1..];
      [files[0]] + InsertBy(f, files[1..], key)
  }

  lemma {:induction false} InsertKeepsSorted(f: string, files: seq<string>, key: string -> string)
    requires SortedBy(files, key)
    ensures SortedBy(InsertBy(f, files, key), key)
    decreases |files|
  {
    var r := InsertBy(f, files, key);
    if files == [] {
    } else if LessEq(key(f), key(files[0])) {
      forall i, j | 0 <= i < j < |r|
        ensures LessEq(key(r[i]), key(r[j]))
      {
        if i == 0 {
          LessEqTransitive(key(f), key(files[0]), key(files[j - 1]));
        } else {
          assert r[i] == files[i - 1] && r[j] == files[j - 1];
        }
      }
    } else {
      var rest := InsertBy(f, files[1..], key);
      InsertKeepsSorted(f, files[1..], key);
      LessTrichotomous(key(f), key(files[0]));
      forall i, j | 0 <= i < j < |r|
        ensures LessEq(key(r[i]), key(r[j]))
      {
        if i == 0 {
          var x := rest[j - 1];
          assert x in multiset(rest);
          if x != f {
            assert x in multiset(files[1..]);
            var k :| 0 <= k < |files[1..]| && files[1..][k] == x;
            assert files[k + 1] == x;
          }
        } else {
          assert r[i] == rest[i - 1] && r[j] == rest[j - 1];
        }
      }
    }
  }

  /** `list.sort(key=...)`: a stable sort by `key`, here an insertion sort. */
  function SortBy(files: seq<string>, key: string -> string): (r: seq<string>)
    ensures SortedBy(r, key)
    ensures multiset(r) == multiset(files)
  {
    if files == [] then []
    else
      assert files == [files[0]] + files[1..];
      InsertKeepsSorted(files[0], SortBy(files[1..], key), key);
      InsertBy(files[0], SortBy(files[1..], key), key)
  }

  /** The files of `files` whose key is `v`, in their order. */
  function WithKey(files: seq<string>, key: string -> string, v: string): seq<string> {
    if files == [] then []
    else (if key(files[0]) == v then [files[0]] else []) + WithKey(files[1..], key, v)
  }

  lemma {:induction false} InsertKeepsOrderOfEqualKeys(f: string, files: seq<string>, key: string -> string, v: string)
    ensures WithKey(InsertBy(f, files, key), key, v) == WithKey([f] + files, key, v)
    decreases |files|
  {
    if files == [] || LessEq(key(f), key(files[0])) {
      assert [f] + files == InsertBy(f, files, key);
    } else {
      var rest := InsertBy(f, files[1..], key);
      var head := if key(files[0]) == v then [files[0]] else [];
      var mine := if key(f) == v then [f] else [];
      InsertKeepsOrderOfEqualKeys(f, files[1..], key, v);
      assert ([files[0]] + rest)[1..] == rest;
      assert ([f] + files[1..])[1..] == files[1..];
      assert ([f] + files)[1..] == files;
      // At most one of `f` and `files[0]` has key `v`, since their keys differ.
      assert head == [] || mine == [];
      calc {
        WithKey(InsertBy(f, files, key), key, v);
        head + WithKey(rest, key, v);
        head + (mine + WithKey(files[1..], key, v));
        mine + (head + WithKey(files[1..], key, v));
        mine + WithKey(files, key, v);
        WithKey([f] + files, key, v);
      }
    }
  }

  /** The sort is stable: files with equal keys keep their relative order. */
  lemma {:induction false} SortIsStable(files: seq<string>, key: string -> string, v: string)
    ensures WithKey(SortBy(files, key), key, v) == WithKey(files, key, v)
    decreases |files|
  {
    if files != [] {
      SortIsStable(files[1..], key, v);
      InsertKeepsOrderOfEqualKeys(files[0], SortBy(files[1..], key), key, v);
      assert ([files[0]] + SortBy(files[1..], key))[1..] == SortBy(files[1..], key);
    }
  }

  /** The files the `up` command applies, in the order it applies them. */
  function Plan(listing: seq<string>, current: Option<string>): seq<string> {
    SortBy(Pending(listing, current), SortKey)
  }

  /** The plan holds the accepted files of the listing, each once for each time it is listed,
      in ascending order of version, equal versions in listing order; each planned file
      carries an `up` version above the current one. */
  lemma PlanIsSortedNewerFiles(listing: seq<string>, current: Option<string>)
    ensures var plan := Plan(listing, current);
      SortedByVersion(plan) &&
      multiset(plan) == multiset(Pending(listing, current)) &&
      (forall f :: f in plan <==> f in listing && ShouldApplyMigration(f, None, current)) &&
      (forall f :: f in plan ==>
        ExtractMigrationInformation(f, Up).version.Some? &&
        SortKey(f) != "" && Less(CurrentOrEmpty(current), SortKey(f))) &&
      (forall v :: WithKey(plan, SortKey, v) == WithKey(Pending(listing, current), SortKey, v))
  {
    var plan := Plan(listing, current);
    forall f | f in plan
      ensures f in Pending(listing, current)
    {
      assert f in multiset(plan);
    }
    forall f | f in Pending(listing, current)
      ensures f in plan
    {
      assert f in multiset(Pending(listing, current));
    }
    forall f | f in plan
      ensures SortKey(f) != "" && Less(CurrentOrEmpty(current), SortKey(f))
    {
      ShouldApplyWindow(f, None, current);
    }
    forall v
      ensures WithKey(plan, SortKey, v) == WithKey(Pending(listing, current), SortKey, v)
    {
      SortIsStable(Pending(listing, current), SortKey, v);
    }
  }

  /** Planning is idempotent: the last planned file carries an `up` version, and against that
      version nothing is left to plan. */
  lemma PlanUpToLastLeavesNothing(listing: seq<string>, current: Option<string>)
    requires Plan(listing, current) != []
    ensures var last := Plan(listing, current)[|Plan(listing, current)| - 1];
      ExtractMigrationInformation(last, Up).version.Some? && Plan(listing, Some(SortKey(last))) == []
  {
    var plan := Plan(listing, current);
    var last := plan[|plan| - 1];
    var top := SortKey(last);
    assert Less(CurrentOrEmpty(current), top) && ExtractMigrationInformation(last, Up).version.Some? by {
      PlanIsSortedNewerFiles(listing, current);
      assert last in plan;
    }
    forall f | f in listing
      ensures !ShouldApplyMigration(f, None, Some(top))
    {
      ShouldApplyWindow(f, None, Some(top));
      ShouldApplyWindow(f, None, current);
      LessTrichotomous(top, SortKey(f));
      if ShouldApplyMigration(f, None, current) {
        assert f in plan by {
          assert f in multiset(Pending(listing, current));
        }
        SortedLastIsLargest(plan, SortKey, f);
      } else if Less(top, SortKey(f)) {
        LessTransitive(CurrentOrEmpty(current), top, SortKey(f));
      }
    }
    NothingAcceptedPendsNothing(listing, Some(top));
  }
}
