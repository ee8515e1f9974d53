/** Parsing a migration filename into a version and a description.

    migrate.py searches the filename with the pattern
        (?P<version>[^_]*)_?(?P<description>.*)\.<direction>\.sql
    case-insensitively. For a filename without newlines this model reduces the search to a rule:
    take the LAST case-insensitive occurrence of ".<direction>.sql" (at j) and the first '_' (at u);
    if u < j the version is everything before u and the description lies between u and j,
    otherwise the version is everything before j and the description is empty.
    ExtractIsGreediestMatch proves that this rule picks the match that Python's backtracking
    engine picks. */
module MigrationFilename {
  import opened Wrappers

  datatype Direction = Up | Down

  /** The literal the pattern requires after the description: "." + direction + ".sql". */
  function Suffix(d: Direction): string {
    match d
    case Up => ".up.sql"
    case Down => ".down.sql"
  }

  /** ASCII case folding, as `re.IGNORECASE` applies it to the letters of the suffix. */
  function Fold(c: char): char {
    if 'A' <= c <= 'Z' then (c as int + 32) as char else c
  }

  /** Starting at position `i`, `s` spells the lower-case text `p` once folded. */
  predicate FoldsAt(s: string, i: nat, p: string)
    decreases |p|
  {
    if p == [] then i <= |s|
    else i < |s| && Fold(s[i]) == p[0] && FoldsAt(s, i + 1, p[1..])
  }

  /** The suffix for direction `d` occurs at position `i` of `s`, in any letter case. */
  predicate SuffixAt(s: string, i: int, d: Direction) {
    0 <= i && FoldsAt(s, i, Suffix(d))
  }

  lemma {:induction false} FoldsAtFits(s: string, i: nat, p: string)
    requires FoldsAt(s, i, p)
    ensures i + |p| <= |s|
    decreases |p|
  {
    if p != [] {
      assert i < |s| && FoldsAt(s, i + 1, p[1..]);
      FoldsAtFits(s, i + 1, p[1..]);
    }
  }

  /** Whether `p` occurs at position `|a| + i` of `a + b` depends on `b` alone. */
  lemma {:induction false} FoldsAtShift(a: string, b: string, i: nat, p: string)
    ensures FoldsAt(a + b, |a| + i, p) == FoldsAt(b, i, p)
    decreases |p|
  {
    if p != [] {
      FoldsAtShift(a, b, i + 1, p[1..]);
    }
  }

  /** The start of the last occurrence of the suffix that starts before position `n`. */
  function LastSuffixBefore(s: string, d: Direction, n: nat): (r: Option<nat>)
    requires n <= |s|
    ensures r.Some? ==> r.value < n && SuffixAt(s, r.value, d)
    ensures r.Some? ==> forall i :: r.value < i < n ==> !SuffixAt(s, i, d)
    ensures r.None? ==> forall i :: 0 <= i < n ==> !SuffixAt(s, i, d)
    decreases n
  {
    if n == 0 then None
    else if SuffixAt(s, n - 1, d) then Some(n - 1)
    else LastSuffixBefore(s, d, n - 1)
  }

  /** An occurrence at `j` with none after it, below `n`, is the one LastSuffixBefore finds. */
  lemma {:induction false} LastSuffixIs(s: string, d: Direction, j: nat, n: nat)
    requires j < n <= |s|
    requires SuffixAt(s, j, d)
    requires forall i :: j < i < n ==> !SuffixAt(s, i, d)
    ensures LastSuffixBefore(s, d, n) == Some(j)
    decreases n
  {
    if n - 1 != j {
      LastSuffixIs(s, d, j, n - 1);
    }
  }

  /** The index of the first '_' in `s`, or |s| when there is none. */
  function FirstUnderscore(s: string): (u: nat)
    ensures u <= |s|
    ensures u < |s| ==> s[u] == '_'
    ensures forall k :: 0 <= k < u ==> s[k] != '_'
  {
    if s == [] then 0
    else if s[0] == '_' then 0
    else 1 + FirstUnderscore(s[1..])
  }

  /** The dictionary `{'version': ..., 'description': ...}` the parser returns. */
  datatype MigrationInfo = MigrationInfo(version: Option<string>, description: Option<string>)

  /** `extractMigrationInformation(filename, direction)`. Version and description are None
      together, and a parsed version never holds '_' (ExtractFindsSuffix says when they are None). */
  function ExtractMigrationInformation(filename: string, d: Direction): (r: MigrationInfo)
    ensures r.version.None? <==> r.description.None?
    ensures r.version.Some? ==> '_' !in r.version.value
  {
    match LastSuffixBefore(filename, d, |filename|)
    case None => MigrationInfo(None, None)
    case Some(j) =>
      var u := FirstUnderscore(filename);
      if u < j then MigrationInfo(Some(filename[..u]), Some(filename[u + 1..j]))
      else MigrationInfo(Some(filename[..j]), Some(""))
  }

  /** The parser finds nothing exactly when no case-insensitive ".<direction>.sql" occurs
      anywhere in the name. */
  lemma ExtractFindsSuffix(filename: string, d: Direction)
    ensures ExtractMigrationInformation(filename, d).version.None? <==>
      forall i :: 0 <= i < |filename| ==> !SuffixAt(filename, i, d)
  {
  }

  /** The pattern matches `s` from position 0 with a version group of length `vl`, the optional
      '_' taken when `us`, and a description group of length `dl`. */
  predicate Matches(s: string, d: Direction, vl: int, us: bool, dl: int) {
    0 <= vl && 0 <= dl && vl < |s| &&
    (forall k :: 0 <= k < vl ==> s[k] != '_') &&
    (us ==> s[vl] == '_') &&
    SuffixAt(s, vl + (if us then 1 else 0) + dl, d)
  }

  /** The order in which a backtracking engine tries the choices of the pattern: the longest
      version first, then the '_' taken before left out, then the longest description. */
  predicate TriedFirst(vl: int, us: bool, dl: int, vl': int, us': bool, dl': int) {
    vl > vl' || (vl == vl' && ((us && !us') || (us == us' && dl >= dl')))
  }

  /** The parser returns the match Python's `re.search` finds: there is one exactly when the
      result has a version, and it is the match tried first among all matches. */
  lemma ExtractIsGreediestMatch(s: string, d: Direction)
    ensures var r := ExtractMigrationInformation(s, d);
      r.version.None? <==> forall vl, us, dl :: !Matches(s, d, vl, us, dl)
    ensures var r := ExtractMigrationInformation(s, d);
      r.version.Some? ==>
        var vl := |r.version.value|;
        var dl := |r.description.value|;
        vl < |s| &&
        var us := s[vl] == '_';
        var start := vl + (if us then 1 else 0);
        Matches(s, d, vl, us, dl) &&
        start + dl <= |s| &&
        r.version.value == s[..vl] && r.description.value == s[start..start + dl] &&
        forall vl', us', dl' :: Matches(s, d, vl', us', dl') ==> TriedFirst(vl, us, dl, vl', us', dl')
  {
    var r := ExtractMigrationInformation(s, d);
    match LastSuffixBefore(s, d, |s|)
    case None =>
    case Some(j) =>
      var u := FirstUnderscore(s);
      FoldsAtFits(s, j, Suffix(d));
      assert s[j] == '.';
      if u < j {
        assert Matches(s, d, u, true, j - u - 1);
      } else {
        assert Matches(s, d, j, false, 0);
      }
  }

  /** A tail that starts with the suffix and holds no later occurrence of it fixes the last
      occurrence of the whole name, whatever comes before it. */
  lemma LastSuffixInTail(head: string, tail: string, d: Direction)
    requires SuffixAt(tail, 0, d)
    requires forall i :: 0 < i < |tail| ==> !SuffixAt(tail, i, d)
    ensures LastSuffixBefore(head + tail, d, |head + tail|) == Some(|head|)
  {
    var s := head + tail;
    var j := |head|;
    assert SuffixAt(s, j, d) by {
      FoldsAtShift(head, tail, 0, Suffix(d));
    }
    forall i | j < i < |s|
      ensures !SuffixAt(s, i, d)
    {
      assert !SuffixAt(tail, i - j, d);
      FoldsAtShift(head, tail, i - j, Suffix(d));
    }
    LastSuffixIs(s, d, j, |s|);
  }

  /** Composing a name from a version without '_', a description and a tail that starts with
      the suffix (in any letter case) and holds no later occurrence of it, and parsing it back,
      gives the version and description again. */
  lemma ParseComposed(v: string, desc: string, tail: string, d: Direction)
    requires '_' !in v
    requires SuffixAt(tail, 0, d)
    requires forall i :: 0 < i < |tail| ==> !SuffixAt(tail, i, d)
    ensures ExtractMigrationInformation(v + "_" + desc + tail, d) == MigrationInfo(Some(v), Some(desc))
  {
    var head := v + "_" + desc;
    var s := head + tail;
    LastSuffixInTail(head, tail, d);
    assert FirstUnderscore(s) == |v| by {
      assert s[|v|] == '_';
      forall k | 0 <= k < |v| ensures s[k] != '_' {
        assert s[k] == v[k];
      }
    }
    assert s[..|v|] == v;
    assert s[|v| + 1..|head|] == desc;
  }

  /** The same for a name without '_' and without description: the description comes back
      empty. */
  lemma ParseComposedWithoutDescription(v: string, tail: string, d: Direction)
    requires '_' !in v
    requires SuffixAt(tail, 0, d)
    requires forall i :: 0 < i < |tail| ==> !SuffixAt(tail, i, d)
    ensures ExtractMigrationInformation(v + tail, d) == MigrationInfo(Some(v), Some(""))
  {
    var s := v + tail;
    LastSuffixInTail(v, tail, d);
    assert forall k :: 0 <= k < |v| ==> s[k] == v[k];
    assert FirstUnderscore(s) >= |v|;
    assert s[..|v|] == v;
  }
}

module FilenameExamples {
  import opened Wrappers
  import opened MigrationFilename

  /** The docstring's example: "V1.0.3.up.sql" gives version "V1.0.3". */
  lemma DocstringExample()
    ensures ExtractMigrationInformation("V1.0.3.up.sql", Up) == MigrationInfo(Some("V1.0.3"), Some(""))
  {
    var tail := ".up.sql";
    assert SuffixAt(tail, 0, Up);
    forall i | 0 < i < |tail| ensures !SuffixAt(tail, i, Up) {
      if FoldsAt(tail, i, Suffix(Up)) { FoldsAtFits(tail, i, Suffix(Up)); }
    }
    assert "V1.0.3.up.sql" == "V1.0.3" + tail;
    ParseComposedWithoutDescription("V1.0.3", tail, Up);
  }

  /** The search is not anchored at the end: text after the suffix is ignored. */
  lemma TrailingTextIgnored()
    ensures ExtractMigrationInformation("V1_x.up.sql.bak", Up) == MigrationInfo(Some("V1"), Some("x"))
  {
    var tail := ".up.sql.bak";
    assert SuffixAt(tail, 0, Up);
    assert "V1_x.up.sql.bak" == "V1" + "_" + "x" + tail;
    ParseComposed("V1", "x", tail, Up);
  }

  /** A name with a description: "V1_seed.up.sql" gives version "V1" and description "seed". */
  lemma SeedExample()
    ensures ExtractMigrationInformation("V1_seed.up.sql", Up) == MigrationInfo(Some("V1"), Some("seed"))
  {
    var tail := ".up.sql";
    assert SuffixAt(tail, 0, Up);
    forall i | 0 < i < |tail| ensures !SuffixAt(tail, i, Up) {
      if FoldsAt(tail, i, Suffix(Up)) { FoldsAtFits(tail, i, Suffix(Up)); }
    }
    assert "V1_seed.up.sql" == "V1" + "_" + "seed" + tail;
    ParseComposed("V1", "seed", tail, Up);
  }

  /** A name without a direction suffix is no migration. */
  lemma BogusNameIgnored()
    ensures ExtractMigrationInformation("bogus.sql", Up) == MigrationInfo(None, None)
    ensures ExtractMigrationInformation("bogus.sql", Down) == MigrationInfo(None, None)
  {
    var s := "bogus.sql";
    forall i, d | 0 <= i < |s| ensures !SuffixAt(s, i, d) {
      if FoldsAt(s, i, Suffix(d)) {
        FoldsAtFits(s, i, Suffix(d));
      }
    }
    ExtractFindsSuffix(s, Up);
    ExtractFindsSuffix(s, Down);
  }
}
