/**
 * The database migration runner (migrations/migrations.go).
 *
 * Loading walks the embedded `sql_files` directory, parses every `{version}_{name}.up.sql` /
 * `{version}_{name}.down.sql` file name, merges the up and down texts of one version into one
 * Migration and lists the migrations in ascending order of version. Running computes the current
 * version from the schema_migrations table, picks the newer migrations and applies each in a
 * transaction of its own: mark dirty, execute, mark clean, commit.
 */
module Migrations {
  import opened Wrappers
  import opened FilePaths

  const MaxUint32: nat := 0xFFFF_FFFF

  /** One migration: a version with the texts of its up and down files. */
  datatype Migration = Migration(version: nat, name: string, upSql: string, downSql: string)

  // ---------------------------------------------------------------------------------------------
  // strconv.ParseUint(s, 10, 32)

  predicate IsDigit(c: char) {
    '0' <= c <= '9'
  }

  predicate AllDigits(s: string) {
    forall i :: 0 <= i < |s| ==> IsDigit(s[i])
  }

  /** The value of a string of decimal digits, most significant digit first. */
  function DigitsValue(s: string): nat
    requires AllDigits(s)
  {
    if s == [] then 0 else DigitsValue(s[..|s| - 1]) * 10 + (s[|s| - 1] as int - '0' as int)
  }

  /**
   * strconv.ParseUint with base 10 and bit size 32: one or more decimal digits, with no sign,
   * prefix or underscore, whose value fits in 32 bits.
   */
  function ParseUint32(s: string): (r: Option<nat>)
    ensures r.Some? ==> s != [] && AllDigits(s) && r.value <= MaxUint32
  {
    if s != [] && AllDigits(s) && DigitsValue(s) <= MaxUint32 then Some(DigitsValue(s)) else None
  }

  function DigitChar(d: nat): (c: char)
    requires d < 10
    ensures IsDigit(c) && c as int - '0' as int == d
  {
    ('0' as int + d) as char
  }

  /** The decimal spelling of n without leading zeros. */
  function Decimal(n: nat): (s: string)
    ensures s != [] && AllDigits(s)
  {
    if n < 10 then [DigitChar(n)] else Decimal(n / 10) + [DigitChar(n % 10)]
  }

  lemma {:induction false} DecimalValue(n: nat)
    ensures DigitsValue(Decimal(n)) == n
  {
    if n >= 10 {
      DecimalValue(n / 10);
      var s := Decimal(n);
      assert s[..|s| - 1] == Decimal(n / 10);
    }
  }

  /** Every 32-bit version written in decimal parses back to itself. */
  lemma ParseDecimal(n: nat)
    requires n <= MaxUint32
    ensures ParseUint32(Decimal(n)) == Some(n)
  {
    DecimalValue(n);
  }

  lemma {:induction false} LeadingZeroValue(s: string)
    requires AllDigits(s)
    ensures AllDigits("0" + s) && DigitsValue("0" + s) == DigitsValue(s)
  {
    if s != [] {
      LeadingZeroValue(s[..|s| - 1]);
      assert ("0" + s)[..|s|] == "0" + s[..|s| - 1];
    }
  }

  /** A leading zero does not change the parsed version: "001" and "1" name the same version. */
  lemma LeadingZero(s: string)
    requires s != []
    ensures ParseUint32("0" + s) == ParseUint32(s)
  {
    if AllDigits(s) {
      LeadingZeroValue(s);
    } else {
      var i :| 0 <= i < |s| && !IsDigit(s[i]);
      assert ("0" + s)[i + 1] == s[i];
    }
  }

  // ---------------------------------------------------------------------------------------------
  // File names

  /** The text before the first occurrence of sep, or all of s when sep does not occur. */
  function BeforeFirst(s: string, sep: char): (r: string)
    ensures |r| <= |s| && r == s[..|r|] && sep !in r
    ensures |r| < |s| ==> s[|r|] == sep
  {
    if s == [] || s[0] == sep then "" else [s[0]] + BeforeFirst(s[1..], sep)
  }

  /** Two separator-free prefixes of s that each end at s's end or at a separator are equal. */
  lemma SamePrefix(s: string, sep: char, a: string, b: string)
    requires |a| <= |s| && s[..|a|] == a && sep !in a && (|a| < |s| ==> s[|a|] == sep)
    requires |b| <= |s| && s[..|b|] == b && sep !in b && (|b| < |s| ==> s[|b|] == sep)
    ensures a == b
  {
    assert forall i :: 0 <= i < |a| ==> s[i] == a[i];
    assert forall i :: 0 <= i < |b| ==> s[i] == b[i];
  }

  /** strings.Split's first piece is the text before the first separator. */
  lemma SplitHead(s: string, sep: char)
    ensures Split(s, sep)[0] == BeforeFirst(s, sep)
    ensures |Split(s, sep)| >= 2 <==> |BeforeFirst(s, sep)| < |s|
  {
    var parts := Split(s, sep);
    JoinSplit(s, sep);
    if |parts| >= 2 {
      AfterFirstSeparator(s, sep);
    } else {
      assert s == parts[0];
    }
    SamePrefix(s, sep, parts[0], BeforeFirst(s, sep));
  }

  /** What one accepted file name says: its version, the migration name and its direction. */
  datatype MigrationFile = MigrationFile(version: nat, name: string, isUp: bool)

  datatype LoadError =
    | InvalidFilename(filename: string)
    | InvalidVersion(filename: string)
    | InvalidSuffix(filename: string)
    | MissingUp(version: nat)

  /**
   * Parses a base file name `{version}_{name}.up.sql` or `{version}_{name}.down.sql`: split at
   * '_', a 32-bit decimal version first, then the direction suffix.
   */
  function ParseFilename(filename: string): Result<MigrationFile, LoadError> {
    var parts := Split(filename, '_');
    if |parts| < 2 then Err(InvalidFilename(filename))
    else
      match ParseUint32(parts[0])
      case None => Err(InvalidVersion(filename))
      case Some(version) =>
        var isUp := HasSuffix(filename, ".up.sql");
        var isDown := HasSuffix(filename, ".down.sql");
        if !isUp && !isDown then Err(InvalidSuffix(filename))
        else
          var name := TrimSuffix(TrimSuffix(Join(parts[1..], '_'), ".up.sql"), ".down.sql");
          Ok(MigrationFile(version, name, isUp))
  }

  /**
   * A file name is accepted exactly when it has a '_', the text before the first '_' is a 32-bit
   * decimal and it ends in ".up.sql" or ".down.sql"; the name is everything after the first '_'
   * with the direction suffix removed.
   */
  lemma ParseFilenameAccepts(filename: string)
    ensures var head := BeforeFirst(filename, '_');
      var r := ParseFilename(filename);
      r.Ok? <==> (|head| < |filename| && ParseUint32(head).Some?
                  && (HasSuffix(filename, ".up.sql") || HasSuffix(filename, ".down.sql")))
    ensures var head := BeforeFirst(filename, '_');
      var r := ParseFilename(filename);
      r.Ok? ==> r.value == MigrationFile(
                  ParseUint32(head).value,
                  TrimSuffix(TrimSuffix(filename[|head| + 1..], ".up.sql"), ".down.sql"),
                  HasSuffix(filename, ".up.sql"))
    ensures ParseFilename(filename).Ok? ==> ParseFilename(filename).value.version <= MaxUint32
  {
    SplitHead(filename, '_');
    if |Split(filename, '_')| >= 2 {
      AfterFirstSeparator(filename, '_');
    }
  }

  // ---------------------------------------------------------------------------------------------
  // Loading

  /** One entry of the directory walk, in walk order, with the file's text. */
  datatype Entry = Entry(path: string, isDir: bool, content: string)

  /** The walk looks only at files whose path ends in ".sql". */
  predicate Considered(e: Entry) {
    !e.isDir && HasSuffix(e.path, ".sql")
  }

  /** How the walk reads a path: a migration file name, or the error that stops the walk. */
  type Parser = string -> Result<MigrationFile, LoadError>

  /** The walk callback's parser: the base name of the path, parsed as a migration file name. */
  function ParsePath(path: string): Result<MigrationFile, LoadError> {
    ParseFilename(Base(path))
  }

  /** A considered file whose name does not parse: it stops the walk. */
  predicate BadFile(e: Entry, parse: Parser) {
    Considered(e) && parse(e.path).Err?
  }

  /** A considered file whose name parses to version v. */
  predicate Contributes(e: Entry, v: nat, parse: Parser) {
    Considered(e) && parse(e.path).Ok? && parse(e.path).value.version == v
  }

  /**
   * Records one parsed file: the first file of a version creates its entry and names it; an up
   * file then sets the up text and a down file the down text, a later file of the same kind
   * overwriting an earlier one.
   */
  function Merge(m: map<nat, Migration>, f: MigrationFile, content: string): (r: map<nat, Migration>)
    ensures r.Keys == m.Keys + {f.version}
    ensures forall v :: v in m && v != f.version ==> r[v] == m[v]
    ensures r[f.version].version == (if f.version in m then m[f.version].version else f.version)
    ensures r[f.version].name == (if f.version in m then m[f.version].name else f.name)
    ensures f.isUp ==> (r[f.version].upSql == content &&
      r[f.version].downSql == (if f.version in m then m[f.version].downSql else ""))
    ensures !f.isUp ==> (r[f.version].downSql == content &&
      r[f.version].upSql == (if f.version in m then m[f.version].upSql else ""))
  {
    var base := if f.version in m then m[f.version] else Migration(f.version, f.name, "", "");
    m[f.version := if f.isUp then base.(upSql := content) else base.(downSql := content)]
  }

  /** The map the walk callback builds from the entries, or the error that stopped the walk. */
  function Collected(entries: seq<Entry>, parse: Parser): Result<map<nat, Migration>, LoadError> {
    if entries == [] then Ok(map[])
    else
      match Collected(entries[..|entries| - 1], parse)
      case Err(e) => Err(e)
      case Ok(m) =>
        var e := entries[|entries| - 1];
        if !Considered(e) then Ok(m)
        else
          match parse(e.path)
          case Err(err) => Err(err)
          case Ok(f) => Ok(Merge(m, f, e.content))
  }

  /** An error stops the walk: once a prefix has failed, the whole walk fails with that error. */
  lemma {:induction false} CollectedStops(entries: seq<Entry>, k: nat, parse: Parser)
    requires k <= |entries| && Collected(entries[..k], parse).Err?
    ensures Collected(entries, parse) == Collected(entries[..k], parse)
    decreases |entries|
  {
    if k < |entries| {
      var init := entries[..|entries| - 1];
      assert init[..k] == entries[..k];
      CollectedStops(init, k, parse);
    } else {
      assert entries[..k] == entries;
    }
  }

  /** The walk fails exactly when a considered file name does not parse, with the first one's error. */
  lemma {:induction false} CollectedFailsAtFirstBadFile(entries: seq<Entry>, parse: Parser)
    ensures Collected(entries, parse).Err? <==>
      exists i :: 0 <= i < |entries| && BadFile(entries[i], parse)
    ensures Collected(entries, parse).Err? ==>
      exists i :: 0 <= i < |entries| && BadFile(entries[i], parse)
        && (forall j :: 0 <= j < i ==> !BadFile(entries[j], parse))
        && Collected(entries, parse).error == parse(entries[i].path).error
  {
    if entries != [] {
      var init := entries[..|entries| - 1];
      var last := entries[|entries| - 1];
      CollectedFailsAtFirstBadFile(init, parse);
      assert forall j :: 0 <= j < |init| ==> entries[j] == init[j];
      if Collected(init, parse).Ok? && BadFile(last, parse) {
        assert forall j :: 0 <= j < |entries| - 1 ==> !BadFile(entries[j], parse);
      }
    }
  }

  /** Every loaded migration is stored under its own version. */
  lemma {:induction false} CollectedKeyed(entries: seq<Entry>, parse: Parser)
    requires Collected(entries, parse).Ok?
    ensures forall v :: v in Collected(entries, parse).value ==>
      Collected(entries, parse).value[v].version == v
  {
    if entries != [] {
      CollectedKeyed(entries[..|entries| - 1], parse);
    }
  }

  /** The loaded versions are exactly the versions of the considered files. */
  lemma {:induction false} CollectedKeys(entries: seq<Entry>, parse: Parser)
    requires Collected(entries, parse).Ok?
    ensures forall v :: v in Collected(entries, parse).value <==>
      exists i :: 0 <= i < |entries| && Contributes(entries[i], v, parse)
  {
    if entries != [] {
      var init := entries[..|entries| - 1];
      var last := entries[|entries| - 1];
      CollectedKeys(init, parse);
      var m0 := Collected(init, parse).value;
      var m := Collected(entries, parse).value;
      assert m.Keys == m0.Keys + (if Considered(last) then {parse(last.path).value.version} else {});
      forall v
        ensures v in m <==> exists i :: 0 <= i < |entries| && Contributes(entries[i], v, parse)
      {
        if v in m0 {
          var i :| 0 <= i < |init| && Contributes(init[i], v, parse);
          assert entries[i] == init[i];
        }
        if Contributes(last, v, parse) {
          assert Contributes(entries[|entries| - 1], v, parse);
        }
        if exists i :: 0 <= i < |entries| && Contributes(entries[i], v, parse) {
          var i :| 0 <= i < |entries| && Contributes(entries[i], v, parse);
          if i < |init| {
            assert entries[i] == init[i];
            assert Contributes(init[i], v, parse);
          }
        }
      }
    }
  }

  /**
   * An up file and a down file of one version, in either order, merge into one migration that
   * holds both texts and takes its name from the first.
   */
  lemma UpDownMerge(first: Entry, second: Entry, parse: Parser)
    requires Considered(first) && Considered(second)
    requires parse(first.path).Ok? && parse(second.path).Ok?
    requires parse(first.path).value.version == parse(second.path).value.version
    requires parse(first.path).value.isUp != parse(second.path).value.isUp
    ensures var f := parse(first.path).value;
      var up := if f.isUp then first.content else second.content;
      var down := if f.isUp then second.content else first.content;
      Collected([first, second], parse) == Ok(map[f.version := Migration(f.version, f.name, up, down)])
  {
    assert [first, second][..1] == [first];
    assert [first][..0] == [];
    var f := parse(first.path).value;
    var g := parse(second.path).value;
    var m1 := Merge(map[], f, first.content);
    assert Collected([first], parse) == Ok(m1);
    assert m1 == map[f.version := if f.isUp then Migration(f.version, f.name, first.content, "")
                                  else Migration(f.version, f.name, "", first.content)];
    var m2 := Merge(m1, g, second.content);
    assert Collected([first, second], parse) == Ok(m2);
    var up := if f.isUp then first.content else second.content;
    var down := if f.isUp then second.content else first.content;
    assert m2.Keys == {f.version};
    assert m2[f.version] == Migration(f.version, f.name, up, down);
    assert m2 == map[f.version := Migration(f.version, f.name, up, down)];
  }

  predicate StrictlyIncreasing(ms: seq<Migration>) {
    forall i, j :: 0 <= i < j < |ms| ==> ms[i].version < ms[j].version
  }

  function Versions(ms: seq<Migration>): set<nat> {
    set i | 0 <= i < |ms| :: ms[i].version
  }

  /** ms lists the migrations of m, one per version, in ascending order of version. */
  predicate SortedFrom(m: map<nat, Migration>, ms: seq<Migration>) {
    StrictlyIncreasing(ms) && Versions(ms) == m.Keys
    && forall i :: 0 <= i < |ms| ==> ms[i].version in m && m[ms[i].version] == ms[i]
  }

  predicate HasMissingUp(m: map<nat, Migration>) {
    exists v :: v in m && m[v].upSql == ""
  }

  /** e names the least version of m whose up text is empty. */
  predicate ReportsMissingUp(m: map<nat, Migration>, e: LoadError) {
    e.MissingUp? && e.version in m && m[e.version].upSql == ""
    && forall v :: v in m && m[v].upSql == "" ==> e.version <= v
  }

  /** The outcome of turning the loaded map into the sorted list. */
  predicate Listed(m: map<nat, Migration>, r: Result<seq<Migration>, LoadError>) {
    (r.Ok? <==> !HasMissingUp(m))
    && (r.Ok? ==> SortedFrom(m, r.value))
    && (r.Err? ==> ReportsMissingUp(m, r.error))
  }

  /** The least element of a non-empty set. */
  ghost function Least(s: set<nat>): (m: nat)
    requires s != {}
    ensures m in s
    ensures forall x :: x in s ==> m <= x
  {
    var y :| y in s;
    assert forall x :: x in s ==> x == y || x in s - {y};
    if s - {y} == {} then y
    else
      var m := Least(s - {y});
      if y < m then y else m
  }

  lemma VersionsSnoc(ms: seq<Migration>, x: Migration)
    ensures Versions(ms + [x]) == Versions(ms) + {x.version}
  {
    var s := ms + [x];
    assert forall i :: 0 <= i < |ms| ==> s[i] == ms[i];
    assert s[|ms|] == x;
  }

  lemma VersionsTail(ms: seq<Migration>)
    requires ms != [] && StrictlyIncreasing(ms)
    ensures Versions(ms[1..]) == Versions(ms) - {ms[0].version}
    ensures StrictlyIncreasing(ms[1..])
  {
    assert forall i :: 0 <= i < |ms| - 1 ==> ms[1..][i] == ms[i + 1];
    forall v | v in Versions(ms) - {ms[0].version}
      ensures v in Versions(ms[1..])
    {
      var i :| 0 <= i < |ms| && ms[i].version == v;
      assert ms[1..][i - 1].version == v;
    }
  }

  /**
   * Two ascending lists with the same versions, agreeing on the migration of each version, are
   * equal.
   */
  lemma {:induction false} SameVersionsSame(a: seq<Migration>, b: seq<Migration>)
    requires StrictlyIncreasing(a) && StrictlyIncreasing(b) && Versions(a) == Versions(b)
    requires forall i, j :: 0 <= i < |a| && 0 <= j < |b| && a[i].version == b[j].version ==> a[i] == b[j]
    ensures a == b
    decreases |a|
  {
    if a != [] {
      assert a[0].version in Versions(a);
    }
    if b != [] {
      assert b[0].version in Versions(b);
    }
    if a != [] && b != [] {
      var j :| 0 <= j < |b| && b[j].version == a[0].version;
      var i :| 0 <= i < |a| && a[i].version == b[0].version;
      assert a[0] == b[0];
      VersionsTail(a);
      VersionsTail(b);
      SameVersionsSame(a[1..], b[1..]);
    }
  }

  /**
   * The sorted list is determined by the map alone: the order in which Go's map iteration visits
   * the versions does not change the result.
   */
  lemma SortedFromUnique(m: map<nat, Migration>, a: seq<Migration>, b: seq<Migration>)
    requires SortedFrom(m, a) && SortedFrom(m, b)
    ensures a == b
  {
    SameVersionsSame(a, b);
  }

  /**
   * The state of the conversion: out lists, in ascending order, the versions of m already taken,
   * each with an up text; rest holds the versions still to take, all greater than those in out.
   */
  predicate Extracting(m: map<nat, Migration>, out: seq<Migration>, rest: set<nat>) {
    rest <= m.Keys && Versions(out) + rest == m.Keys && StrictlyIncreasing(out)
    && (forall i :: 0 <= i < |out| ==> out[i].version in m && m[out[i].version] == out[i])
    && (forall i :: 0 <= i < |out| ==> out[i].upSql != "")
    && (forall i, v :: 0 <= i < |out| && v in rest ==> out[i].version < v)
  }

  /** Taking the least remaining version keeps the conversion state. */
  lemma ExtractStep(m: map<nat, Migration>, out: seq<Migration>, rest: set<nat>, v: nat)
    requires forall w :: w in m ==> m[w].version == w
    requires Extracting(m, out, rest)
    requires v in rest && forall x :: x in rest ==> v <= x
    requires m[v].upSql != ""
    ensures Extracting(m, out + [m[v]], rest - {v})
  {
    var out', rest' := out + [m[v]], rest - {v};
    assert m[v].version == v;
    VersionsSnoc(out, m[v]);
    assert Versions(out') + rest' == m.Keys;
    assert forall i :: 0 <= i < |out| ==> out'[i] == out[i];
    assert out'[|out|] == m[v];
    assert StrictlyIncreasing(out') by {
      forall i, j | 0 <= i < j < |out'|
        ensures out'[i].version < out'[j].version
      {
        if j < |out| {
          assert out'[i] == out[i] && out'[j] == out[j];
        }
      }
    }
    assert forall i, w :: 0 <= i < |out'| && w in rest' ==> out'[i].version < w;
  }

  /** Meeting a version without an up text reports the least such version. */
  lemma ExtractMissing(m: map<nat, Migration>, out: seq<Migration>, rest: set<nat>, v: nat)
    requires Extracting(m, out, rest)
    requires v in rest && forall x :: x in rest ==> v <= x
    requires m[v].upSql == ""
    ensures Listed(m, Err(MissingUp(v)))
  {
    forall x | x in Versions(out)
      ensures m[x].upSql != ""
    {
      var i :| 0 <= i < |out| && out[i].version == x;
    }
  }

  /** Once every version is taken, the list is the sorted conversion. */
  lemma ExtractDone(m: map<nat, Migration>, out: seq<Migration>)
    requires Extracting(m, out, {})
    ensures Listed(m, Ok(out))
  {
    forall w | w in m
      ensures m[w].upSql != ""
    {
      var i :| 0 <= i < |out| && out[i].version == w;
    }
  }

  /**
   * The conversion of the map to a list: every version must have an up text; the list holds one
   * migration per version in ascending order.
   */
  method SortedByVersion(m: map<nat, Migration>) returns (r: Result<seq<Migration>, LoadError>)
    requires forall v :: v in m ==> m[v].version == v
    ensures Listed(m, r)
  {
    var rest := m.Keys;
    var out: seq<Migration> := [];
    while rest != {}
      invariant Extracting(m, out, rest)
      decreases |rest|
    {
      assert Least(rest) in rest && forall x :: x in rest ==> Least(rest) <= x;
      var v :| v in rest && forall x :: x in rest ==> v <= x;
      if m[v].upSql == "" {
        ExtractMissing(m, out, rest, v);
        return Err(MissingUp(v));
      }
      ExtractStep(m, out, rest, v);
      out := out + [m[v]];
      rest := rest - {v};
    }
    ExtractDone(m, out);
    return Ok(out);
  }

  /**
   * loadMigrations: walks the entries into a map of migrations, then lists them by version.
   */
  method LoadMigrations(entries: seq<Entry>) returns (r: Result<seq<Migration>, LoadError>)
    ensures Collected(entries, ParsePath).Err? ==> r == Err(Collected(entries, ParsePath).error)
    ensures Collected(entries, ParsePath).Ok? ==> Listed(Collected(entries, ParsePath).value, r)
  {
    var m: map<nat, Migration> := map[];
    var i := 0;
    while i < |entries|
      invariant 0 <= i <= |entries|
      invariant Collected(entries[..i], ParsePath) == Ok(m)
    {
      var e := entries[i];
      assert entries[..i + 1][..i] == entries[..i];
      if Considered(e) {
        var parsed := ParsePath(e.path);
        if parsed.Err? {
          CollectedStops(entries, i + 1, ParsePath);
          return Err(parsed.error);
        }
        m := Merge(m, parsed.value, e.content);
      }
      i := i + 1;
    }
    assert entries[..|entries|] == entries;
    CollectedKeyed(entries, ParsePath);
    r := SortedByVersion(m);
  }

  // ---------------------------------------------------------------------------------------------
  // The schema_migrations table

  /** One row of schema_migrations; version is the primary key. */
  datatype SchemaRow = SchemaRow(version: nat, dirty: int, executedAt: Option<int>)

  /** The versions of the rows with dirty = 0. */
  function Clean(rows: seq<SchemaRow>): set<nat> {
    if rows == [] then {}
    else
      var last := rows[|rows| - 1];
      Clean(rows[..|rows| - 1]) + (if last.dirty == 0 then {last.version} else {})
  }

  /** The current version: the greatest clean version, or 0 when there is none. */
  function CurrentVersion(rows: seq<SchemaRow>): (r: nat)
    ensures forall v :: v in Clean(rows) ==> v <= r
    ensures r == 0 || r in Clean(rows)
  {
    if rows == [] then 0
    else
      var c := CurrentVersion(rows[..|rows| - 1]);
      var last := rows[|rows| - 1];
      if last.dirty == 0 && last.version > c then last.version else c
  }

  predicate HasVersion(rows: seq<SchemaRow>, v: nat) {
    exists i :: 0 <= i < |rows| && rows[i].version == v
  }

  /** UPDATE schema_migrations SET dirty = 1 WHERE version = v. */
  function WithDirty(rows: seq<SchemaRow>, v: nat): (r: seq<SchemaRow>)
    ensures |r| == |rows|
    ensures forall i :: 0 <= i < |rows| ==> r[i].version == rows[i].version
  {
    if rows == [] then []
    else
      var last := rows[|rows| - 1];
      WithDirty(rows[..|rows| - 1], v) + [if last.version == v then last.(dirty := 1) else last]
  }

  /** UPDATE schema_migrations SET dirty = 0, executed_at = now WHERE version = v. */
  function WithClean(rows: seq<SchemaRow>, v: nat, now: int): (r: seq<SchemaRow>)
    ensures |r| == |rows|
    ensures forall i :: 0 <= i < |rows| ==> r[i].version == rows[i].version
  {
    if rows == [] then []
    else
      var last := rows[|rows| - 1];
      WithClean(rows[..|rows| - 1], v, now)
        + [if last.version == v then last.(dirty := 0, executedAt := Some(now)) else last]
  }

  /** INSERT ... VALUES (v, 1) ON CONFLICT(version) DO UPDATE SET dirty = 1. */
  function MarkDirty(rows: seq<SchemaRow>, v: nat): (r: seq<SchemaRow>)
    ensures HasVersion(r, v)
  {
    if HasVersion(rows, v) then
      var i :| 0 <= i < |rows| && rows[i].version == v;
      assert WithDirty(rows, v)[i].version == v;
      WithDirty(rows, v)
    else
      assert (rows + [SchemaRow(v, 1, None)])[|rows|].version == v;
      rows + [SchemaRow(v, 1, None)]
  }

  /** The table after the transaction of migration v commits. */
  function Committed(rows: seq<SchemaRow>, v: nat, now: int): seq<SchemaRow> {
    WithClean(MarkDirty(rows, v), v, now)
  }

  lemma {:induction false} WithDirtyClean(rows: seq<SchemaRow>, v: nat)
    ensures Clean(WithDirty(rows, v)) == Clean(rows) - {v}
  {
    if rows != [] {
      WithDirtyClean(rows[..|rows| - 1], v);
      var r := WithDirty(rows, v);
      assert r[..|r| - 1] == WithDirty(rows[..|rows| - 1], v);
    }
  }

  lemma {:induction false} WithCleanClean(rows: seq<SchemaRow>, v: nat, now: int)
    requires HasVersion(rows, v)
    ensures Clean(WithClean(rows, v, now)) == Clean(rows) + {v}
  {
    var init := rows[..|rows| - 1];
    var r := WithClean(rows, v, now);
    assert r[..|r| - 1] == WithClean(init, v, now);
    if HasVersion(init, v) {
      WithCleanClean(init, v, now);
    } else {
      assert rows[|rows| - 1].version == v;
      WithCleanAbsent(init, v, now);
    }
  }

  lemma {:induction false} WithCleanAbsent(rows: seq<SchemaRow>, v: nat, now: int)
    requires !HasVersion(rows, v)
    ensures WithClean(rows, v, now) == rows
  {
    if rows != [] {
      var init := rows[..|rows| - 1];
      assert !HasVersion(init, v) by {
        assert forall i :: 0 <= i < |init| ==> init[i] == rows[i];
      }
      WithCleanAbsent(init, v, now);
    }
  }

  lemma {:induction false} CleanHasVersion(rows: seq<SchemaRow>, v: nat)
    requires v in Clean(rows)
    ensures HasVersion(rows, v)
  {
    var init := rows[..|rows| - 1];
    if v in Clean(init) {
      CleanHasVersion(init, v);
      var i :| 0 <= i < |init| && init[i].version == v;
      assert rows[i] == init[i];
    } else {
      assert rows[|rows| - 1].version == v;
    }
  }

  lemma {:induction false} AppendClean(rows: seq<SchemaRow>, row: SchemaRow)
    ensures Clean(rows + [row]) == Clean(rows) + (if row.dirty == 0 then {row.version} else {})
  {
    assert (rows + [row])[..|rows|] == rows;
  }

  /**
   * Committing migration v makes exactly v clean in addition to the versions that were clean, so
   * the current version becomes the greater of the old one and v.
   */
  lemma CommitRaises(rows: seq<SchemaRow>, v: nat, now: int)
    ensures Clean(Committed(rows, v, now)) == Clean(rows) + {v}
    ensures CurrentVersion(Committed(rows, v, now)) == if v > CurrentVersion(rows) then v else CurrentVersion(rows)
  {
    MarkDirtyClean(rows, v);
    WithCleanClean(MarkDirty(rows, v), v, now);
    CurrentOfClean(rows, Committed(rows, v, now), v);
  }

  lemma MarkDirtyClean(rows: seq<SchemaRow>, v: nat)
    ensures Clean(MarkDirty(rows, v)) == Clean(rows) - {v}
  {
    if HasVersion(rows, v) {
      WithDirtyClean(rows, v);
    } else {
      assert MarkDirty(rows, v) == rows + [SchemaRow(v, 1, None)];
      AppendClean(rows, SchemaRow(v, 1, None));
      if v in Clean(rows) {
        CleanHasVersion(rows, v);
      }
    }
  }

  /** The current version only depends on the clean versions. */
  lemma CurrentOfClean(a: seq<SchemaRow>, b: seq<SchemaRow>, v: nat)
    requires Clean(b) == Clean(a) + {v}
    ensures CurrentVersion(b) == if v > CurrentVersion(a) then v else CurrentVersion(a)
  {
    var ca, cb := CurrentVersion(a), CurrentVersion(b);
    assert v in Clean(b);
    if ca != 0 {
      assert ca in Clean(b);
    }
  }

  /** The table after the transactions of ms commit one after another. */
  function Applied(rows: seq<SchemaRow>, ms: seq<Migration>, now: int): seq<SchemaRow> {
    if ms == [] then rows
    else Committed(Applied(rows, ms[..|ms| - 1], now), ms[|ms| - 1].version, now)
  }

  /**
   * Applying ascending migrations that are all newer than the current version leaves the last
   * one as the current version.
   */
  lemma {:induction false} AppliedCurrent(rows: seq<SchemaRow>, ms: seq<Migration>, now: int)
    requires ms != [] && StrictlyIncreasing(ms)
    requires forall i :: 0 <= i < |ms| ==> ms[i].version > CurrentVersion(rows)
    ensures CurrentVersion(Applied(rows, ms, now)) == ms[|ms| - 1].version
  {
    var init := ms[..|ms| - 1];
    CommitRaises(Applied(rows, init, now), ms[|ms| - 1].version, now);
    if init != [] {
      AppliedCurrent(rows, init, now);
    }
  }

  /** The loaded migrations newer than the current version, in loaded order. */
  function Pending(ms: seq<Migration>, current: nat): (r: seq<Migration>)
    ensures forall x :: x in r <==> x in ms && x.version > current
  {
    if ms == [] then []
    else
      var init := ms[..|ms| - 1];
      var last := ms[|ms| - 1];
      assert ms == init + [last];
      if last.version > current then Pending(init, current) + [last] else Pending(init, current)
  }

  /** Filtering keeps the ascending order. */
  lemma {:induction false} PendingIncreasing(ms: seq<Migration>, current: nat)
    requires StrictlyIncreasing(ms)
    ensures StrictlyIncreasing(Pending(ms, current))
  {
    if ms != [] {
      var init := ms[..|ms| - 1];
      var last := ms[|ms| - 1];
      PendingIncreasing(init, current);
      var p := Pending(init, current);
      forall i | 0 <= i < |p|
        ensures p[i].version < last.version
      {
        assert p[i] in init;
      }
    }
  }

  /** Two ascending lists with the same elements are equal. */
  lemma SameElementsSame(a: seq<Migration>, b: seq<Migration>)
    requires StrictlyIncreasing(a) && StrictlyIncreasing(b)
    requires forall x :: x in a <==> x in b
    ensures a == b
  {
    forall v | v in Versions(a)
      ensures v in Versions(b)
    {
      var i :| 0 <= i < |a| && a[i].version == v;
      assert a[i] in b;
    }
    forall v | v in Versions(b)
      ensures v in Versions(a)
    {
      var i :| 0 <= i < |b| && b[i].version == v;
      assert b[i] in a;
    }
    forall i, j | 0 <= i < |a| && 0 <= j < |b| && a[i].version == b[j].version
      ensures a[i] == b[j]
    {
      assert a[i] in b;
      var k :| 0 <= k < |b| && b[k] == a[i];
    }
    SameVersionsSame(a, b);
  }

  // ---------------------------------------------------------------------------------------------
  // Running

  /** The result of executing a migration's up text inside its transaction. */
  datatype ExecOutcome = Executed | ExecError(message: string)

  const DuplicateColumn: string := "duplicate column name"

  /** An execution error stops the run unless its message mentions a duplicate column. */
  predicate Fails(o: ExecOutcome) {
    o.ExecError? && !Contains(o.message, DuplicateColumn)
  }

  /** SQLite's message for a column that already exists does not stop the run, wherever it occurs. */
  lemma DuplicateColumnTolerated(before: string, after: string)
    ensures !Fails(ExecError(before + DuplicateColumn + after))
  {
    ContainsInside(before, DuplicateColumn, after);
  }

  /** The index of the first migration whose execution fails, or |ms| when none does. */
  function FirstFailure(ms: seq<Migration>, exec: nat -> ExecOutcome): (k: nat)
    ensures k <= |ms|
    ensures forall j :: 0 <= j < k ==> !Fails(exec(ms[j].version))
    ensures k < |ms| ==> Fails(exec(ms[k].version))
  {
    if ms == [] then 0
    else if Fails(exec(ms[0].version)) then 0
    else 1 + FirstFailure(ms[1..], exec)
  }

  datatype RunError = LoadFailed(error: LoadError) | ExecFailed(version: nat)

  /**
   * What a run that loaded ms does: the migrations before the first failing one are committed in
   * order, and the run reports the failing one or success.
   */
  predicate RanPending(before: seq<SchemaRow>, ms: seq<Migration>, exec: nat -> ExecOutcome, now: int,
                       after: seq<SchemaRow>, r: Outcome<RunError>)
  {
    var pending := Pending(ms, CurrentVersion(before));
    var k := FirstFailure(pending, exec);
    after == Applied(before, pending[..k], now)
    && r == (if k < |pending| then Fail(ExecFailed(pending[k].version)) else Pass)
  }

  /** A run that applied everything leaves nothing pending: running again changes nothing. */
  lemma RerunNothingPending(rows: seq<SchemaRow>, ms: seq<Migration>, now: int)
    requires StrictlyIncreasing(ms)
    ensures var pending := Pending(ms, CurrentVersion(rows));
      Pending(ms, CurrentVersion(Applied(rows, pending, now))) == []
  {
    var c := CurrentVersion(rows);
    var pending := Pending(ms, c);
    PendingIncreasing(ms, c);
    if pending != [] {
      AppliedCurrent(rows, pending, now);
      var top := pending[|pending| - 1].version;
      forall x | x in ms
        ensures x.version <= top
      {
        if x.version > c {
          var i :| 0 <= i < |pending| && pending[i] == x;
        }
      }
      var p := Pending(ms, top);
      PendingIncreasing(ms, top);
      SameElementsSame(p, []);
    }
  }

  /**
   * Filtering the loaded list by a pending migration's version leaves exactly the pending
   * migrations after it.
   */
  lemma PendingSuffix(ms: seq<Migration>, c: nat, k: nat)
    requires StrictlyIncreasing(ms)
    requires 0 < k <= |Pending(ms, c)|
    ensures Pending(ms, Pending(ms, c)[k - 1].version) == Pending(ms, c)[k..]
  {
    var pending := Pending(ms, c);
    PendingIncreasing(ms, c);
    var top := pending[k - 1].version;
    forall x
      ensures x in Pending(ms, top) <==> x in pending[k..]
    {
      if x in pending[k..] {
        var i :| k <= i < |pending| && pending[i] == x;
      }
      if x in ms && x.version > top {
        var i :| 0 <= i < |pending| && pending[i] == x;
        assert pending[k..][i - k] == x;
      }
    }
    PendingIncreasing(ms, top);
    assert forall i :: 0 <= i < |pending| - k ==> pending[k..][i] == pending[k + i];
    SameElementsSame(Pending(ms, top), pending[k..]);
  }

  /**
   * A run that stopped at a failing migration leaves exactly that one and those after it pending:
   * the next run resumes where this one stopped.
   */
  lemma RetryResumes(rows: seq<SchemaRow>, ms: seq<Migration>, exec: nat -> ExecOutcome, now: int)
    requires StrictlyIncreasing(ms)
    ensures var pending := Pending(ms, CurrentVersion(rows));
      var k := FirstFailure(pending, exec);
      Pending(ms, CurrentVersion(Applied(rows, pending[..k], now))) == pending[k..]
  {
    var pending := Pending(ms, CurrentVersion(rows));
    var k := FirstFailure(pending, exec);
    if k == 0 {
      assert pending[..0] == [] && pending[0..] == pending;
    } else {
      AppliedPrefix(rows, ms, k, now);
    }
  }

  /** Applying the first k pending migrations leaves the ones after them pending. */
  lemma AppliedPrefix(rows: seq<SchemaRow>, ms: seq<Migration>, k: nat, now: int)
    requires StrictlyIncreasing(ms)
    requires 0 < k <= |Pending(ms, CurrentVersion(rows))|
    ensures var pending := Pending(ms, CurrentVersion(rows));
      Pending(ms, CurrentVersion(Applied(rows, pending[..k], now))) == pending[k..]
  {
    var c := CurrentVersion(rows);
    var pending := Pending(ms, c);
    var done := pending[..k];
    PendingIncreasing(ms, c);
    assert StrictlyIncreasing(done) && done[k - 1] == pending[k - 1];
    assert forall i :: 0 <= i < |done| ==> done[i].version > c by {
      assert forall i :: 0 <= i < |done| ==> done[i] == pending[i] && pending[i] in pending;
    }
    AppliedCurrent(rows, done, now);
    PendingSuffix(ms, c, k);
  }

  /** The schema_migrations table. */
  class SchemaTable {
    var rows: seq<SchemaRow>

    constructor ()
      ensures rows == []
    {
      rows := [];
    }
  }

  /** The filter loop of Run: the loaded migrations newer than the current version. */
  method FilterPending(ms: seq<Migration>, current: nat) returns (pending: seq<Migration>)
    ensures pending == Pending(ms, current)
  {
    pending := [];
    var i := 0;
    while i < |ms|
      invariant 0 <= i <= |ms|
      invariant pending == Pending(ms[..i], current)
    {
      assert ms[..i + 1][..i] == ms[..i];
      if ms[i].version > current {
        pending := pending + [ms[i]];
      }
      i := i + 1;
    }
    assert ms[..|ms|] == ms;
  }

  /**
   * One migration's transaction: mark it dirty, execute its up text and, unless that fails, mark
   * it clean and commit. A failure rolls the transaction back, so the table is unchanged.
   */
  method Apply(db: SchemaTable, m: Migration, exec: nat -> ExecOutcome, now: int) returns (ok: bool)
    modifies db
    ensures ok == !Fails(exec(m.version))
    ensures db.rows == if ok then Committed(old(db.rows), m.version, now) else old(db.rows)
  {
    var tx := MarkDirty(db.rows, m.version);
    var outcome := exec(m.version);
    if Fails(outcome) {
      return false;
    }
    tx := WithClean(tx, m.version, now);
    db.rows := tx;
    return true;
  }

  /** Up to the first failure, the migration at i fails exactly when i is the first failure. */
  lemma FirstFailureAt(ms: seq<Migration>, exec: nat -> ExecOutcome, i: nat)
    requires i < |ms| && i <= FirstFailure(ms, exec)
    ensures Fails(exec(ms[i].version)) <==> i == FirstFailure(ms, exec)
  {
  }

  lemma AppliedStep(rows: seq<SchemaRow>, ms: seq<Migration>, i: nat, now: int)
    requires i < |ms|
    ensures Applied(rows, ms[..i + 1], now) == Committed(Applied(rows, ms[..i], now), ms[i].version, now)
  {
    assert ms[..i + 1][..i] == ms[..i];
  }

  /**
   * The apply loop of Run: the pending migrations are applied in order until the first one whose
   * execution fails.
   */
  method ApplyPending(db: SchemaTable, pending: seq<Migration>, exec: nat -> ExecOutcome, now: int)
    returns (r: Outcome<RunError>)
    modifies db
    ensures var k := FirstFailure(pending, exec);
      db.rows == Applied(old(db.rows), pending[..k], now)
      && r == (if k < |pending| then Fail(ExecFailed(pending[k].version)) else Pass)
  {
    var i := 0;
    while i < |pending|
      invariant 0 <= i <= |pending|
      invariant i <= FirstFailure(pending, exec)
      invariant db.rows == Applied(old(db.rows), pending[..i], now)
    {
      FirstFailureAt(pending, exec, i);
      var ok := Apply(db, pending[i], exec, now);
      if !ok {
        return Fail(ExecFailed(pending[i].version));
      }
      AppliedStep(old(db.rows), pending, i, now);
      i := i + 1;
    }
    assert pending[..|pending|] == pending;
    return Pass;
  }

  /**
   * Run: reads the current version, loads the migrations and applies the pending ones in order,
   * stopping at the first failing one; the ones before it stay committed.
   */
  method Run(db: SchemaTable, entries: seq<Entry>, exec: nat -> ExecOutcome, now: int)
    returns (r: Outcome<RunError>)
    modifies db
    ensures Collected(entries, ParsePath).Err? ==>
      r == Fail(LoadFailed(Collected(entries, ParsePath).error)) && db.rows == old(db.rows)
    ensures Collected(entries, ParsePath).Ok? && HasMissingUp(Collected(entries, ParsePath).value) ==>
      r.Fail? && r.error.LoadFailed? && ReportsMissingUp(Collected(entries, ParsePath).value, r.error.error)
      && db.rows == old(db.rows)
    ensures Collected(entries, ParsePath).Ok? && !HasMissingUp(Collected(entries, ParsePath).value) ==>
      exists ms :: SortedFrom(Collected(entries, ParsePath).value, ms)
    ensures Collected(entries, ParsePath).Ok? && !HasMissingUp(Collected(entries, ParsePath).value) ==>
      forall ms :: SortedFrom(Collected(entries, ParsePath).value, ms) ==>
        RanPending(old(db.rows), ms, exec, now, db.rows, r)
  {
    var current := CurrentVersion(db.rows);
    var loaded := LoadMigrations(entries);
    if loaded.Err? {
      return Fail(LoadFailed(loaded.error));
    }
    ghost var m := Collected(entries, ParsePath).value;
    var ms := loaded.value;
    var pending := FilterPending(ms, current);
    r := ApplyPending(db, pending, exec, now);
    assert RanPending(old(db.rows), ms, exec, now, db.rows, r);
    forall other | SortedFrom(m, other)
      ensures RanPending(old(db.rows), other, exec, now, db.rows, r)
    {
      SortedFromUnique(m, other, ms);
    }
  }
}
