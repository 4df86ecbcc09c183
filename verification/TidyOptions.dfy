/** Merging and looking up clang-tidy options (clang-tools-extra/clang-tidy/ClangTidyOptions.cpp). */
module TidyOptions {
  import opened GlobList
  import opened Sequences

  datatype Options = Options(
    checks: Option<string>,
    headerFilterRegex: Option<string>,
    systemHeaders: Option<bool>,
    analyzeTemporaryDtors: Option<bool>,
    user: Option<string>,
    checkOptions: map<string, string>)
  {
    function MergeWith(other: Options): Options {
      Options(
        JoinChecks(checks, other.checks),
        Newer(headerFilterRegex, other.headerFilterRegex),
        Newer(systemHeaders, other.systemHeaders),
        Newer(analyzeTemporaryDtors, other.analyzeTemporaryDtors),
        Newer(user, other.user),
        checkOptions + other.checkOptions)
    }
  }

  function Newer<T>(before: Option<T>, after: Option<T>): Option<T> {
    if after.Some? then after else before
  }

  function JoinChecks(before: Option<string>, after: Option<string>): Option<string> {
    match after
    case None => before
    case Some(b) => Some((if before.Some? && before.value != [] then before.value + "," else []) + b)
  }

  /** What the argument sets stands, and what it does not set stays: field by field, and check option by
      check option.  The texts of the checks are joined by a comma, if there are two to join. */
  lemma MergedFields(x: Options, y: Options, key: string)
    ensures var m := x.MergeWith(y);
      && m.headerFilterRegex == (if y.headerFilterRegex != None then y.headerFilterRegex else x.headerFilterRegex)
      && m.systemHeaders == (if y.systemHeaders != None then y.systemHeaders else x.systemHeaders)
      && m.analyzeTemporaryDtors ==
           (if y.analyzeTemporaryDtors != None then y.analyzeTemporaryDtors else x.analyzeTemporaryDtors)
      && m.user == (if y.user != None then y.user else x.user)
      && (key in m.checkOptions <==> key in x.checkOptions || key in y.checkOptions)
      && (key in y.checkOptions ==> m.checkOptions[key] == y.checkOptions[key])
      && (key in x.checkOptions && key !in y.checkOptions ==> m.checkOptions[key] == x.checkOptions[key])
      && (y.checks == None ==> m.checks == x.checks)
      && (y.checks.Some? && (x.checks == None || x.checks == Some("")) ==> m.checks == y.checks)
      && (y.checks.Some? && x.checks.Some? && x.checks != Some("") ==>
            m.checks == Some(x.checks.value + "," + y.checks.value))
  {
    assert y.checks.Some? ==> [] + y.checks.value == y.checks.value;
  }

  // ----- filtering by merged checks -----

  /** What a Checks option says about s: the sign of its last glob that matches s, if any. */
  ghost function Says(checks: Option<string>, s: string): Option<bool> {
    match checks
    case None => None
    case Some(text) => LastMatch(Entries(text), s)
  }

  lemma EmptyTextSays(s: string)
    ensures Says(Some(""), s) == if s == [] then Some(true) else None
  {
    var entries := Entries("");
    assert entries == [Entry(true, "")];
    assert LastMatch(entries[..0], s) == None;
  }

  lemma TailSays(a: string, b: string, s: string)
    ensures LastMatch(JoinedTail(a, b), s) ==
      if b != [] && Says(Some(b), s).Some? then Says(Some(b), s)
      else if s == [] && EndsWithComma(a) then Some(true) else None
  {
    var x := if EndsWithComma(a) then [Entry(true, "")] else [];
    var y := if b == [] then [] else Entries(b);
    LastMatchConcat(x, y, s);
    EmptyTextSays(s);
    assert Entries("") == [Entry(true, "")];
  }

  lemma JoinedSays(a: string, b: string, s: string)
    requires a != []
    ensures Says(Some(a + "," + b), s) ==
      if b != [] && Says(Some(b), s).Some? then Says(Some(b), s)
      else if s == [] && EndsWithComma(a) then Some(true)
      else Says(Some(a), s)
  {
    EntriesOfJoined(a, b);
    LastMatchConcat(Entries(a), JoinedTail(a, b), s);
    TailSays(a, b, s);
  }

  /** For a nonempty check name the newer option decides where it says anything. */
  lemma MergedChecksSay(before: Option<string>, after: Option<string>, s: string)
    requires s != []
    ensures Says(JoinChecks(before, after), s) == Newer(Says(before, s), Says(after, s))
  {
    EmptyTextSays(s);
    if before.Some? && after.Some? {
      if before.value == [] {
        assert [] + after.value == after.value;
      } else {
        JoinedSays(before.value, after.value, s);
        assert before.value + "," + after.value == (before.value + ",") + after.value;
      }
    } else if after.Some? {
      assert [] + after.value == after.value;
    }
  }

  /** Where the law would fail for the empty name: a comma or an empty filter text has put the
      empty glob, which only the empty name matches, in a place where it decides. */
  predicate EmptyGlobDecides(a: string, b: string, aSays: Option<bool>, bSays: Option<bool>) {
    if a == [] then bSays == None
    else if b == [] then !EndsWithComma(a) && aSays != Some(true)
    else EndsWithComma(a) && bSays == None && aSays != Some(true)
  }

  /** Filtering by merged checks gives b's last matching glob if any and a's verdict otherwise:
      for every nonempty name, and for the empty name exactly when no empty glob decides. */
  lemma MergedVerdict(a: string, b: string, s: string)
    ensures var merged := JoinChecks(Some(a), Some(b)).value;
      (Enabled(merged, s) <==> Newer(Says(Some(a), s), Says(Some(b), s)) == Some(true))
      <==> !(s == [] && EmptyGlobDecides(a, b, Says(Some(a), s), Says(Some(b), s)))
  {
    var merged := JoinChecks(Some(a), Some(b)).value;
    assert Enabled(merged, s) <==> Says(Some(merged), s) == Some(true);
    if s != [] {
      MergedChecksSay(Some(a), Some(b), s);
    } else {
      EmptyTextSays(s);
      if a == [] {
        assert merged == b;
      } else {
        JoinedSays(a, b, s);
        assert merged == a + "," + b;
      }
    }
  }

  // ----- merging three times -----

  lemma ChecksAssociateInMeaning(x: Option<string>, y: Option<string>, z: Option<string>, s: string)
    requires s != []
    ensures Says(JoinChecks(JoinChecks(x, y), z), s) == Says(JoinChecks(x, JoinChecks(y, z)), s)
  {
    hide Says, JoinChecks;
    MergedChecksSay(x, y, s);
    MergedChecksSay(JoinChecks(x, y), z, s);
    MergedChecksSay(y, z, s);
    MergedChecksSay(x, JoinChecks(y, z), s);
  }

  /** All fields but the text of the checks are merged associatively, and the checks are in
      their meaning for every nonempty check name. */
  lemma MergeIsAssociativeInMeaning(x: Options, y: Options, z: Options, s: string)
    requires s != []
    ensures var left, right := x.MergeWith(y).MergeWith(z), x.MergeWith(y.MergeWith(z));
      && Says(left.checks, s) == Says(right.checks, s)
      && left.(checks := None) == right.(checks := None)
  {
    hide Says, JoinChecks;
    ChecksAssociateInMeaning(x.checks, y.checks, z.checks, s);
    assert (x.checkOptions + y.checkOptions) + z.checkOptions == x.checkOptions + (y.checkOptions + z.checkOptions);
  }

  /** The text is not: an empty middle text leaves a comma behind. */
  lemma ChecksTextAssociates(x: Option<string>, y: Option<string>, z: Option<string>)
    ensures JoinChecks(JoinChecks(x, y), z) == JoinChecks(x, JoinChecks(y, z))
      <==> !(x.Some? && x.value != [] && y == Some("") && z.Some?)
  {
    assert y.Some? ==> [] + y.value == y.value;
    assert z.Some? ==> [] + z.value == z.value;
    assert y.Some? && z.Some? ==> [] + (y.value + "," + z.value) == y.value + "," + z.value;
    if x.Some? && x.value != [] && y.Some? && z.Some? {
      var a, b, c := x.value, y.value, z.value;
      if b == [] {
        assert JoinChecks(JoinChecks(x, y), z).value == (a + "," + b) + "," + c;
        assert JoinChecks(x, JoinChecks(y, z)).value == a + "," + ([] + c);
        assert |(a + "," + b) + "," + c| != |a + "," + ([] + c)|;
      } else {
        assert (a + "," + b) + "," + c == a + "," + (b + "," + c);
      }
    }
  }

  // ----- the options of a file -----

  /** A directory as its path components; the parent of a directory drops the last. */
  type Directory = seq<string>

  function Parent(d: Directory): Directory {
    if d == [] then [] else d[..|d| - 1]
  }

  /** What the provider finds on disk: whether a path is a directory, and what the k-th
      configuration handler makes of its file there (None for a file that is missing,
      unreadable, empty or malformed). */
  datatype Disk = Disk(isDirectory: Directory -> bool, handlers: nat, parsed: (Directory, nat) -> Option<Options>)

  function FirstConfig(disk: Disk, d: Directory, k: nat): Option<Options>
    decreases disk.handlers - k
  {
    if k >= disk.handlers then None
    else if disk.parsed(d, k).Some? then disk.parsed(d, k)
    else FirstConfig(disk, d, k + 1)
  }

  /** The options that one directory gives on its own. */
  function FromConfig(disk: Disk, defaults: Options, overrides: Options, d: Directory): Option<Options> {
    if !disk.isDirectory(d) then None
    else match FirstConfig(disk, d, 0)
      case None => None
      case Some(o) => Some(defaults.(checks := None).MergeWith(o).MergeWith(overrides))
  }

  /** The walk up the parents with nothing remembered. */
  function Walk(disk: Disk, defaults: Options, overrides: Options, d: Directory): Options {
    if d == [] then defaults.MergeWith(overrides)
    else match FromConfig(disk, defaults, overrides, d)
      case Some(o) => o
      case None => Walk(disk, defaults, overrides, Parent(d))
  }

  // ----- which file, and which of its settings -----

  /** The k-th handler is the first one with a configuration in the directory. */
  ghost predicate Configures(disk: Disk, d: Directory, k: nat) {
    && disk.isDirectory(d) && k < disk.handlers && disk.parsed(d, k).Some?
    && forall j :: 0 <= j < k ==> disk.parsed(d, j) == None
  }

  ghost predicate Configured(disk: Disk, d: Directory) {
    disk.isDirectory(d) && exists k :: 0 <= k < disk.handlers && disk.parsed(d, k).Some?
  }

  /** Of the directories d[..1], d[..2], ..., d the longest that has a configuration is d[..n]. */
  ghost predicate Nearest(disk: Disk, d: Directory, n: nat) {
    && 0 < n <= |d| && Configured(disk, d[..n])
    && forall m :: n < m <= |d| ==> !Configured(disk, d[..m])
  }

  /** The uppermost of three values that is set. */
  function Uppermost<T>(low: Option<T>, mid: Option<T>, high: Option<T>): Option<T> {
    if high != None then high else if mid != None then mid else low
  }

  function Setting(options: map<string, string>, key: string): Option<string> {
    if key in options then Some(options[key]) else None
  }

  /** Every setting of r is that of the override if it has one, else that of the file, else the default;
      for the checks, in what they say about every nonempty name. */
  ghost predicate Overlaid(r: Options, low: Options, mid: Options, high: Options) {
    OverlaidFields(r, low, mid, high) && OverlaidOptions(r, low, mid, high) && OverlaidChecks(r, low, mid, high)
  }

  ghost predicate OverlaidFields(r: Options, low: Options, mid: Options, high: Options) {
    && r.headerFilterRegex == Uppermost(low.headerFilterRegex, mid.headerFilterRegex, high.headerFilterRegex)
    && r.systemHeaders == Uppermost(low.systemHeaders, mid.systemHeaders, high.systemHeaders)
    && r.analyzeTemporaryDtors
         == Uppermost(low.analyzeTemporaryDtors, mid.analyzeTemporaryDtors, high.analyzeTemporaryDtors)
    && r.user == Uppermost(low.user, mid.user, high.user)
  }

  ghost predicate OverlaidOptions(r: Options, low: Options, mid: Options, high: Options) {
    forall key :: Setting(r.checkOptions, key) ==
      Uppermost(Setting(low.checkOptions, key), Setting(mid.checkOptions, key), Setting(high.checkOptions, key))
  }

  ghost predicate OverlaidChecks(r: Options, low: Options, mid: Options, high: Options) {
    forall s :: s != [] ==>
      Says(r.checks, s) == Uppermost(Says(low.checks, s), Says(mid.checks, s), Says(high.checks, s))
  }

  const NOTHING: Options := Options(None, None, None, None, None, map[])

  lemma MergedTwiceOverlays(low: Options, mid: Options, high: Options)
    ensures Overlaid(low.MergeWith(mid).MergeWith(high), low, mid, high)
  {
    hide Says, JoinChecks, OverlaidFields, OverlaidOptions, OverlaidChecks;
    FieldsOverlay(low, mid, high);
    OptionsOverlay(low, mid, high);
    ChecksOverlay(low, mid, high);
  }

  lemma FieldsOverlay(low: Options, mid: Options, high: Options)
    ensures OverlaidFields(low.MergeWith(mid).MergeWith(high), low, mid, high)
  {
    hide Says, JoinChecks;
  }

  lemma OptionsOverlay(low: Options, mid: Options, high: Options)
    ensures OverlaidOptions(low.MergeWith(mid).MergeWith(high), low, mid, high)
  {
    hide Says, JoinChecks, Newer;
  }

  lemma ChecksOverlay(low: Options, mid: Options, high: Options)
    ensures OverlaidChecks(low.MergeWith(mid).MergeWith(high), low, mid, high)
  {
    hide Says, JoinChecks;
    var r := low.MergeWith(mid).MergeWith(high);
    forall s | s != []
      ensures Says(r.checks, s) == Uppermost(Says(low.checks, s), Says(mid.checks, s), Says(high.checks, s))
    {
      MergedChecksSay(low.checks, mid.checks, s);
      MergedChecksSay(JoinChecks(low.checks, mid.checks), high.checks, s);
    }
  }

  lemma OverNothing(low: Options, high: Options)
    ensures Overlaid(low.MergeWith(high), low, NOTHING, high)
  {
    hide Says, JoinChecks, OverlaidFields, OverlaidOptions, OverlaidChecks;
    MergedTwiceOverlays(low, NOTHING, high);
    MergedWithNothing(low);
  }

  lemma MergedWithNothing(low: Options)
    ensures low.MergeWith(NOTHING) == low
  {
  }

  /** The settings of the k-th handler's file in d[..n], the nearest directory with a configuration. */
  ghost predicate FromFile(
    disk: Disk, defaults: Options, overrides: Options, d: Directory, n: nat, k: nat, r: Options)
  {
    && Nearest(disk, d, n) && Configures(disk, d[..n], k)
    && Overlaid(r, defaults.(checks := None), disk.parsed(d[..n], k).value, overrides)
  }

  /** The options that a file in directory d has: those of the nearest configuration upwards, by its first
      handler, between the defaults without their checks and the overrides; or, if there is none, the
      defaults below the overrides. */
  ghost predicate Governs(disk: Disk, defaults: Options, overrides: Options, d: Directory, r: Options) {
    || (exists n: nat, k: nat :: FromFile(disk, defaults, overrides, d, n, k, r))
    || ((forall m :: 0 < m <= |d| ==> !Configured(disk, d[..m])) && Overlaid(r, defaults, NOTHING, overrides))
  }

  lemma {:induction false} FirstConfigIsFirst(disk: Disk, d: Directory, k: nat) returns (first: nat)
    requires disk.isDirectory(d) && forall j :: 0 <= j < k ==> disk.parsed(d, j) == None
    ensures FirstConfig(disk, d, k).Some? <==> Configured(disk, d)
    ensures Configured(disk, d) ==> Configures(disk, d, first) && FirstConfig(disk, d, k) == disk.parsed(d, first)
    decreases disk.handlers - k
  {
    if k >= disk.handlers || disk.parsed(d, k).Some? {
      return k;
    } else {
      first := FirstConfigIsFirst(disk, d, k + 1);
    }
  }

  /** What one directory gives on its own. */
  lemma ConfigOverlays(disk: Disk, defaults: Options, overrides: Options, d: Directory)
    ensures FromConfig(disk, defaults, overrides, d).Some? <==> Configured(disk, d)
    ensures FromConfig(disk, defaults, overrides, d).Some? ==>
      exists k: nat :: Configures(disk, d, k) && Overlaid(FromConfig(disk, defaults, overrides, d).value,
        defaults.(checks := None), disk.parsed(d, k).value, overrides)
  {
    hide Overlaid;
    if disk.isDirectory(d) {
      var k := FirstConfigIsFirst(disk, d, 0);
      if Configured(disk, d) {
        MergedTwiceOverlays(defaults.(checks := None), disk.parsed(d, k).value, overrides);
      }
    }
  }

  /** The walk finds the options that govern. */
  lemma {:induction false} WalkGoverns(disk: Disk, defaults: Options, overrides: Options, d: Directory)
    ensures Governs(disk, defaults, overrides, d, Walk(disk, defaults, overrides, d))
    decreases |d|
  {
    hide Overlaid, Configures, Configured, FromConfig;
    if d == [] {
      OverNothing(defaults, overrides);
    } else {
      ConfigOverlays(disk, defaults, overrides, d);
      assert d[..|d|] == d;
      if Configured(disk, d) {
        assert Nearest(disk, d, |d|);
        NearestGoverns(disk, defaults, overrides, d);
      } else {
        WalkGoverns(disk, defaults, overrides, Parent(d));
        GovernsBelow(disk, defaults, overrides, d, Walk(disk, defaults, overrides, Parent(d)));
      }
    }
  }

  lemma NearestGoverns(disk: Disk, defaults: Options, overrides: Options, d: Directory)
    requires Nearest(disk, d, |d|)
    ensures Governs(disk, defaults, overrides, d, Walk(disk, defaults, overrides, d))
  {
    hide Overlaid;
    ConfigOverlays(disk, defaults, overrides, d);
    assert d[..|d|] == d;
    var r := FromConfig(disk, defaults, overrides, d).value;
    var k: nat :| Configures(disk, d, k)
      && Overlaid(r, defaults.(checks := None), disk.parsed(d, k).value, overrides);
    assert FromFile(disk, defaults, overrides, d, |d|, k, r);
  }

  /** A directory without a configuration has the options of its parent. */
  lemma GovernsBelow(disk: Disk, defaults: Options, overrides: Options, d: Directory, r: Options)
    requires d != [] && !Configured(disk, d) && Governs(disk, defaults, overrides, Parent(d), r)
    ensures Governs(disk, defaults, overrides, d, r)
  {
    hide Overlaid, Configures, Configured;
    var p := Parent(d);
    assert d[..|d|] == d;
    assert forall m :: 0 <= m <= |p| ==> p[..m] == d[..m];
    if n: nat, k: nat :| FromFile(disk, defaults, overrides, p, n, k, r) {
      assert FromFile(disk, defaults, overrides, d, n, k, r);
    }
  }

  class FileOptionsProvider {
    const disk: Disk
    const defaults: Options
    const overrides: Options
    var cached: map<Directory, Options>

    /** Everything remembered is what the walk would find. */
    ghost predicate Valid()
      reads this
    {
      && [] in cached
      && forall d :: d in cached ==> cached[d] == Walk(disk, defaults, overrides, d)
    }

    constructor (disk: Disk, defaults: Options, overrides: Options)
      ensures Valid()
      ensures this.disk == disk && this.defaults == defaults && this.overrides == overrides
    {
      this.disk := disk;
      this.defaults := defaults;
      this.overrides := overrides;
      cached := map[[] := defaults.MergeWith(overrides)];
    }

    method TryReadConfigFile(directory: Directory) returns (r: Option<Options>)
      ensures r == FromConfig(disk, defaults, overrides, directory)
      ensures r.Some? <==> Configured(disk, directory)
      ensures r.Some? ==> exists k: nat :: Configures(disk, directory, k) && Overlaid(r.value,
        defaults.(checks := None), disk.parsed(directory, k).value, overrides)
    {
      hide Overlaid, Configures, Configured;
      ConfigOverlays(disk, defaults, overrides, directory);
      if !disk.isDirectory(directory) {
        return None;
      }
      for k := 0 to disk.handlers
        invariant FirstConfig(disk, directory, 0) == FirstConfig(disk, directory, k)
      {
        var o := disk.parsed(directory, k);
        if o.Some? {
          return Some(defaults.(checks := None).MergeWith(o.value).MergeWith(overrides));
        }
      }
      return None;
    }

    /** The options of the file are those of the walk from its directory, whatever is cached;
        afterwards that directory is cached. */
    method GetOptions(file: Directory) returns (r: Options)
      requires Valid()
      modifies this
      ensures r == Walk(disk, defaults, overrides, Parent(file))
      ensures Governs(disk, defaults, overrides, Parent(file), r)
      ensures Valid() && Parent(file) in cached
      ensures forall d :: d in old(cached) ==> d in cached && cached[d] == old(cached[d])
    {
      hide Governs, Overlaid, Configures, Configured;
      var path := Parent(file);
      WalkGoverns(disk, defaults, overrides, path);
      var current := path;
      ghost var here := Walk(disk, defaults, overrides, path);
      while true
        invariant current == path[..|current|] && |current| <= |path|
        invariant Valid() && cached == old(cached)
        invariant forall n :: |current| <= n <= |path| ==> Walk(disk, defaults, overrides, path[..n]) == here
        decreases |current|
      {
        var result := None;
        if current in cached {
          result := Some(cached[current]);
        } else {
          result := TryReadConfigFile(current);
        }
        if result.Some? {
          assert result.value == here;
          RememberAll(path, current, result.value);
          assert path[..|path|] == path;
          return result.value;
        }
        assert current != [];
        assert Parent(current) == path[..|current| - 1];
        current := Parent(current);
      }
    }

    /** Stores the options for every directory from path up to current. */
    method RememberAll(path: Directory, current: Directory, o: Options)
      requires Valid() && |current| <= |path| && current == path[..|current|]
      requires forall n :: |current| <= n <= |path| ==> Walk(disk, defaults, overrides, path[..n]) == o
      modifies this
      ensures Valid() && path in cached
      ensures forall d :: d in old(cached) ==> d in cached && cached[d] == old(cached[d])
    {
      var p := path;
      while p != current
        invariant |current| <= |p| <= |path| && p == path[..|p|]
        invariant Valid()
        invariant p != path ==> path in cached
        invariant forall d :: d in old(cached) ==> d in cached && cached[d] == old(cached[d])
        decreases |p|
      {
        cached := cached[p := o];
        assert Parent(p) == path[..|p| - 1];
        p := Parent(p);
      }
      cached := cached[p := o];
    }
  }
}
