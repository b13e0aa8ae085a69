/** Festival rules (`HinduCalendarEvent`) and their timings (`HinduCalendarEventTiming`), the
    repositories they are read from (`RulesRepo`), and where a rule is stored: the storage path
    is derived from the rule's timing, and the rule tree is keyed by that same path. */
module FestivalEvents {
  import opened Wrappers
  import opened Strings

  // ---------------------------------------------------------------------------------------
  // Timings

  /** The values the timing schema allows for `month_type`. */
  datatype MonthType = LunarMonth | SiderealSolarMonth | TropicalMonth

  /** The values the timing schema allows for `anga_type`. */
  datatype AngaType = TithiAnga | NakshatraAnga | YogaAnga | DayAnga

  function MonthTypeName(t: MonthType): string {
    match t
    case LunarMonth => "lunar_month"
    case SiderealSolarMonth => "sidereal_solar_month"
    case TropicalMonth => "tropical_month"
  }

  function AngaTypeName(t: AngaType): string {
    match t
    case TithiAnga => "tithi"
    case NakshatraAnga => "nakshatra"
    case YogaAnga => "yoga"
    case DayAnga => "day"
  }

  /** Schema validation of a `month_type` string. */
  function ParseMonthType(s: string): Option<MonthType> {
    if s == "lunar_month" then Some(LunarMonth)
    else if s == "sidereal_solar_month" then Some(SiderealSolarMonth)
    else if s == "tropical_month" then Some(TropicalMonth)
    else None
  }

  /** Schema validation of an `anga_type` string. */
  function ParseAngaType(s: string): Option<AngaType> {
    if s == "tithi" then Some(TithiAnga)
    else if s == "nakshatra" then Some(NakshatraAnga)
    else if s == "yoga" then Some(YogaAnga)
    else if s == "day" then Some(DayAnga)
    else None
  }

  /** A string passes the `month_type` enum exactly when it is the name of a month type. */
  lemma MonthTypeNames(s: string, t: MonthType)
    ensures ParseMonthType(s) == Some(t) <==> s == MonthTypeName(t)
  {
  }

  /** A string passes the `anga_type` enum exactly when it is the name of an anga type. */
  lemma AngaTypeNames(s: string, t: AngaType)
    ensures ParseAngaType(s) == Some(t) <==> s == AngaTypeName(t)
  {
  }

  /** A rule's timing; every field may be unset (`None`). */
  datatype Timing = Timing(
    monthType: Option<MonthType>,
    monthNumber: Option<int>,
    angaType: Option<AngaType>,
    angaNumber: Option<int>,
    kaala: Option<string>,
    priority: Option<string>,
    yearStart: Option<int>,
    anchorFestivalId: Option<string>,
    offset: Option<int>)

  /** The moment of the day a rule is evaluated at; sunrise unless the rule says otherwise. */
  function GetKaala(t: Timing): string {
    t.kaala.GetOr("sunrise")
  }

  /** The policy for a rule whose anga straddles two days; puurvaviddha unless the rule says
      otherwise. */
  function GetPriority(t: Timing): string {
    t.priority.GetOr("puurvaviddha")
  }

  datatype SchemaError = NotAMonthType(monthType: string) | NotAnAngaType(angaType: string)

  /** `HinduCalendarEventTiming.from_details`: a timing with the given fields and no priority,
      anchor or offset, rejected by schema validation when a type is outside its enum. */
  function FromDetails(monthType: Option<string>, monthNumber: Option<int>, angaType: Option<string>,
                       angaNumber: Option<int>, kaala: Option<string>, yearStart: Option<int>)
    : (r: Result<Timing, SchemaError>)
    ensures r.Success? <==>
      (monthType.Some? ==> ParseMonthType(monthType.value).Some?) &&
      (angaType.Some? ==> ParseAngaType(angaType.value).Some?)
    ensures r.Success? ==>
      && r.value.monthNumber == monthNumber && r.value.angaNumber == angaNumber
      && r.value.kaala == kaala && r.value.yearStart == yearStart
      && (monthType.Some? <==> r.value.monthType.Some?)
      && (monthType.Some? ==> monthType.value == MonthTypeName(r.value.monthType.value))
      && (angaType.Some? <==> r.value.angaType.Some?)
      && (angaType.Some? ==> angaType.value == AngaTypeName(r.value.angaType.value))
  {
    var mt := if monthType.Some? then ParseMonthType(monthType.value) else None;
    var at := if angaType.Some? then ParseAngaType(angaType.value) else None;
    if monthType.Some? && mt.None? then Failure(NotAMonthType(monthType.value))
    else if angaType.Some? && at.None? then Failure(NotAnAngaType(angaType.value))
    else
      assert monthType.Some? ==> MonthTypeName(mt.value) == monthType.value by {
        if monthType.Some? {
          MonthTypeNames(monthType.value, mt.value);
        }
      }
      assert angaType.Some? ==> AngaTypeName(at.value) == angaType.value by {
        if angaType.Some? {
          AngaTypeNames(angaType.value, at.value);
        }
      }
      Success(Timing(mt, monthNumber, at, angaNumber, kaala, None, yearStart, None, None))
  }

  /** A timing made by `from_details` is evaluated at the given kaala, or at sunrise when none
      is given, and always under the puurvaviddha policy. */
  lemma FromDetailsDefaults(monthType: Option<string>, monthNumber: Option<int>, angaType: Option<string>,
                            angaNumber: Option<int>, kaala: Option<string>, yearStart: Option<int>)
    requires FromDetails(monthType, monthNumber, angaType, angaNumber, kaala, yearStart).Success?
    ensures var t := FromDetails(monthType, monthNumber, angaType, angaNumber, kaala, yearStart).value;
      && (kaala.None? ==> GetKaala(t) == "sunrise")
      && (kaala.Some? ==> GetKaala(t) == kaala.value)
      && GetPriority(t) == "puurvaviddha"
      && t.anchorFestivalId.None? && t.offset.None?
  {
  }

  // ---------------------------------------------------------------------------------------
  // Rules and repositories

  /** A rules repository: its name, an optional explicit directory, and its public base URL. */
  datatype RulesRepo = RulesRepo(name: string, path: Option<string>, baseUrl: string)

  const DefaultBaseUrl := "https://github.com/sanskrit-coders/adyatithi/tree/master"

  /** A rule. `pathActual` and `repo` are set when the rule is read from a file. */
  datatype Event = Event(
    id: string,
    timing: Option<Timing>,
    tags: Option<seq<string>>,
    pathActual: Option<string>,
    repo: Option<RulesRepo>)

  /** `os.path.join(a, b)` for two POSIX path components. */
  function PathJoin(a: string, b: string): (r: string)
    ensures StartsWith(b, "/") ==> r == b
    ensures !StartsWith(b, "/") ==> EndsWith(r, b) && StartsWith(r, a)
  {
    if StartsWith(b, "/") then b
    else if a == "" || EndsWith(a, "/") then
      assert (a + b)[..|a|] == a && (a + b)[|a + b| - |b|..] == b;
      a + b
    else
      assert (a + "/" + b)[..|a|] == a && (a + "/" + b)[|a + "/" + b| - |b|..] == b;
      a + "/" + b
  }

  /** `RulesRepo.__init__`: the base URL is extended by the repository's name. */
  function NewRulesRepo(name: string, path: Option<string>, baseUrl: string): (r: RulesRepo)
    ensures r.name == name && r.path == path
    ensures !StartsWith(name, "/") ==> StartsWith(r.baseUrl, baseUrl) && EndsWith(r.baseUrl, name)
  {
    RulesRepo(name, path, PathJoin(baseUrl, name))
  }

  /** `RulesRepo(name)` with the default arguments: no explicit directory, and the base URL of
      the canonical rules repository extended by the name. */
  function DefaultRulesRepo(name: string): (r: RulesRepo)
    ensures r.name == name && r.path.None?
    ensures !StartsWith(name, "/") ==> StartsWith(r.baseUrl, DefaultBaseUrl) && EndsWith(r.baseUrl, name)
  {
    NewRulesRepo(name, None, DefaultBaseUrl)
  }

  /** `RulesRepo.get_path`: the explicit directory, or the repository's name under the data
      root. */
  function GetPath(repo: RulesRepo, dataRoot: string): (r: string)
    ensures repo.path.Some? ==> r == repo.path.value
    ensures repo.path.None? && !StartsWith(repo.name, "/") ==> StartsWith(r, dataRoot) && EndsWith(r, repo.name)
  {
    match repo.path
    case Some(p) => p
    case None => PathJoin(dataRoot, repo.name)
  }

  /** The directory the collection reads a repository from, `os.path.join(DATA_ROOT,
      repo.get_path())`: with an absolute data root it is the repository's name under the data
      root, or its explicit directory when that is absolute. */
  lemma RepoDirectory(repo: RulesRepo, dataRoot: string)
    requires StartsWith(dataRoot, "/")
    ensures repo.path.None? ==> PathJoin(dataRoot, GetPath(repo, dataRoot)) == PathJoin(dataRoot, repo.name)
    ensures repo.path.Some? && StartsWith(repo.path.value, "/") ==>
      PathJoin(dataRoot, GetPath(repo, dataRoot)) == repo.path.value
  {
    if repo.path.None? && !StartsWith(repo.name, "/") {
      var j := PathJoin(dataRoot, repo.name);
      assert j[..1] == j[..|dataRoot|][..1];
    }
  }

  // ---------------------------------------------------------------------------------------
  // Storage paths

  const InfoSuffix := "__info.toml"
  const IdBraces: set<char> := {'{', '}'}

  /** A rule id as it appears in a file name: every `/` becomes `__`, and braces at either end
      are stripped. */
  function SanitizeId(id: string): (r: string)
    ensures '/' !in r
    ensures |r| > 0 ==> r[0] !in IdBraces && r[|r| - 1] !in IdBraces
  {
    Strip(ReplaceChar(id, '/', "__"), IdBraces)
  }

  lemma SanitizeIdIdempotent(id: string)
    ensures SanitizeId(SanitizeId(id)) == SanitizeId(id)
  {
    var s := SanitizeId(id);
    ReplaceCharAbsent(s, '/', "__");
    StripUnchanged(s, IdBraces);
  }

  /** An id without `/` and without braces at its ends is its own file name. */
  lemma SanitizeIdPlain(id: string)
    requires '/' !in id
    requires |id| > 0 ==> id[0] !in IdBraces && id[|id| - 1] !in IdBraces
    ensures SanitizeId(id) == id
  {
    ReplaceCharAbsent(id, '/', "__");
    StripUnchanged(id, IdBraces);
  }

  /** `anchor_festival_id` as a directory name: every `/` becomes `__` (nothing is stripped). */
  function AnchorDirName(anchor: string): (r: string)
    ensures '/' !in r
    ensures anchor != "" ==> r != ""
  {
    ReplaceChar(anchor, '/', "__")
  }

  function OptMonthTypeName(t: Option<MonthType>): string {
    match t
    case Some(m) => MonthTypeName(m)
    case None => "None"
  }

  function OptAngaTypeName(t: Option<AngaType>): string {
    match t
    case Some(a) => AngaTypeName(a)
    case None => "None"
  }

  /** What raises while a storage path is formatted. */
  datatype PathError =
    | NoTiming                // `self.timing.anchor_festival_id` on a rule without timing
    | OffsetNotInteger        // `"%02d" % None` for an anchored rule without offset
    | AngaNumberNotInteger    // `"%02d" % None` for a month/anga rule without anga number
    | TagsNotList             // `'/'.join(None)` for a description-only rule without tags

  /** The three places a rule can be filed. */
  datatype Branch = RelativeEvent | DescriptionOnly | MonthAnga

  /** Which of the three path schemes applies to a rule: an anchor wins over everything else, a
      rule without timing or month number is description-only. */
  function BranchOf(e: Event): (r: Branch)
    ensures r != DescriptionOnly ==> e.timing.Some? && (r == MonthAnga ==> e.timing.value.monthNumber.Some?)
    ensures e.timing.None? ==> r == DescriptionOnly
  {
    if e.timing.Some? && e.timing.value.anchorFestivalId.Some? then RelativeEvent
    else if e.timing.None? || e.timing.value.monthNumber.None? then DescriptionOnly
    else MonthAnga
  }

  /** The `/`-separated components of a rule's path below the base directory. */
  function PathParts(e: Event): (r: Result<seq<string>, PathError>)
    ensures r.Success? ==> 2 <= |r.value| && r.value[|r.value| - 1] == SanitizeId(e.id) + InfoSuffix
    ensures r.Failure? ==> r.error != NoTiming
  {
    match BranchOf(e)
    case RelativeEvent =>
      var t := e.timing.value;
      if t.offset.None? then Failure(OffsetNotInteger)
      else Success(["relative_event", AnchorDirName(t.anchorFestivalId.value),
                    "offset__" + FormatInt02(t.offset.value), SanitizeId(e.id) + InfoSuffix])
    case DescriptionOnly =>
      if e.tags.None? then Failure(TagsNotList)
      else Success(["description_only", SanitizeId(e.id) + InfoSuffix])
    case MonthAnga =>
      var t := e.timing.value;
      if t.angaNumber.None? then Failure(AngaNumberNotInteger)
      else Success([OptMonthTypeName(t.monthType), OptAngaTypeName(t.angaType),
                    FormatInt02(t.monthNumber.value), FormatInt02(t.angaNumber.value),
                    SanitizeId(e.id) + InfoSuffix])
  }

  /** `base_dir + "/" + path`, the path percent-quoted (by `quote`) when the base is a URL. */
  function WithBase(baseDir: string, path: string, quote: string -> string): string {
    baseDir + "/" + (if StartsWith(baseDir, "http") then quote(path) else path)
  }

  /** `get_storage_file_name_granular` as evidently intended: a rule without timing is filed
      as description-only, the branch meant for rules with no timing or no month number. */
  function StorageFileNameGranular(e: Event, baseDir: string, quote: string -> string)
    : (r: Result<string, PathError>)
    ensures r.Success? <==> PathParts(e).Success?
    ensures r.Failure? ==> r.error == PathParts(e).error && r.error != NoTiming
    ensures r.Success? ==> StartsWith(r.value, baseDir + "/")
  {
    match PathParts(e)
    case Failure(err) => Failure(err)
    case Success(parts) => Success(WithBase(baseDir, Join(parts, '/'), quote))
  }

  /** `get_storage_file_name_granular` as written: the anchor test reads a field of the timing
      before the code asks whether there is a timing at all, so a rule without timing raises. */
  function StorageFileNameGranularAsWritten(e: Event, baseDir: string, quote: string -> string)
    : (r: Result<string, PathError>)
    ensures r == Failure(NoTiming) <==> e.timing.None?
    ensures r.Success? <==> e.timing.Some? && PathParts(e).Success?
  {
    if e.timing.None? then Failure(NoTiming) else StorageFileNameGranular(e, baseDir, quote)
  }

  /** A rule without timing (and with tags) makes the code as written raise, where the
      description-only path is intended. */
  lemma NoTimingCounterexample(quote: string -> string)
    ensures var e := Event("x", None, Some([]), None, None);
      && StorageFileNameGranularAsWritten(e, "", quote) == Failure(NoTiming)
      && StorageFileNameGranular(e, "", quote) == Success("/description_only/x__info.toml")
  {
    CounterexampleParts();
    CounterexamplePath(quote);
  }

  lemma CounterexampleParts()
    ensures PathParts(Event("x", None, Some([]), None, None)) == Success(["description_only", "x__info.toml"])
  {
    SanitizeIdPlain("x");
    assert "x" + InfoSuffix == "x__info.toml";
  }

  lemma CounterexamplePath(quote: string -> string)
    ensures WithBase("", Join(["description_only", "x__info.toml"], '/'), quote) == "/description_only/x__info.toml"
  {
    var a, b := "description_only", "x__info.toml";
    JoinPair(a, b, '/');
    assert !StartsWith("", "http");
    assert WithBase("", a + "/" + b, quote) == "/" + (a + "/" + b);
    CounterexampleSpelled();
  }

  lemma CounterexampleSpelled()
    ensures "/" + ("description_only" + "/" + "x__info.toml") == "/description_only/x__info.toml"
  {
  }

  lemma JoinPair(a: string, b: string, c: char)
    ensures Join([a, b], c) == a + [c] + b
  {
    assert [a, b][1..] == [b];
  }

  /** The two definitions differ only on rules without timing. */
  lemma AsWrittenAgreesWithTiming(e: Event, baseDir: string, quote: string -> string)
    requires e.timing.Some?
    ensures StorageFileNameGranularAsWritten(e, baseDir, quote) == StorageFileNameGranular(e, baseDir, quote)
  {
  }

  /** `get_storage_file_name_flat`: the file sits directly in `base_dir`. */
  function StorageFileNameFlat(e: Event, baseDir: string): (r: string)
    ensures StartsWith(r, baseDir + "/") && EndsWith(r, InfoSuffix)
    ensures r[|baseDir| + 1..] == SanitizeId(e.id) + InfoSuffix
    ensures '/' !in r[|baseDir| + 1..]
  {
    var name := SanitizeId(e.id) + InfoSuffix;
    SlashFreeFileName(SanitizeId(e.id));
    var pre := baseDir + "/";
    assert (pre + name)[..|pre|] == pre;
    assert (pre + name)[|pre|..] == name;
    assert (pre + name)[|pre + name| - |InfoSuffix|..] == InfoSuffix;
    pre + name
  }

  /** The file name made from an id has no `/`. */
  lemma SlashFreeFileName(name: string)
    requires '/' !in name
    ensures '/' !in name + InfoSuffix
  {
    assert InfoSuffix == ['_', '_', 'i', 'n', 'f', 'o', '.', 't', 'o', 'm', 'l'];
    forall i | 0 <= i < |name + InfoSuffix| ensures (name + InfoSuffix)[i] != '/' {
      if i >= |name| {
        assert (name + InfoSuffix)[i] == InfoSuffix[i - |name|];
      }
    }
  }

  lemma JoinEndsWithLast(parts: seq<string>, c: char)
    requires |parts| >= 1
    ensures EndsWith(Join(parts, c), parts[|parts| - 1])
  {
    if |parts| > 1 {
      JoinEndsWithLast(parts[1..], c);
      var j := Join(parts, c);
      var t := Join(parts[1..], c);
      var last := parts[|parts| - 1];
      assert j == parts[0] + [c] + t;
      assert j[|j| - |last|..] == t[|t| - |last|..];
    }
  }

  /** A storage path is `base_dir`, a `/`, and a relative path that ends in the rule's file
      name, the sanitised id followed by `__info.toml` (when the base is not a URL, whose paths
      the quoting may rewrite). */
  lemma StorageFileNameShape(e: Event, baseDir: string, quote: string -> string)
    requires StorageFileNameGranular(e, baseDir, quote).Success?
    requires !StartsWith(baseDir, "http")
    ensures var r := StorageFileNameGranular(e, baseDir, quote).value;
      && StartsWith(r, baseDir + "/")
      && EndsWith(r, SanitizeId(e.id) + InfoSuffix)
      && EndsWith(r, InfoSuffix)
  {
    var parts := PathParts(e).value;
    var path := Join(parts, '/');
    var last := parts[|parts| - 1];
    JoinEndsWithLast(parts, '/');
    assert StorageFileNameGranular(e, baseDir, quote).value == (baseDir + "/") + path;
    EndsWithExtended(baseDir + "/", path, last);
    EndsWithExtended(SanitizeId(e.id), InfoSuffix, InfoSuffix);
    EndsWithTransitive((baseDir + "/") + path, last, InfoSuffix);
  }

  lemma EndsWithExtended(p: string, s: string, t: string)
    requires EndsWith(s, t)
    ensures EndsWith(p + s, t)
  {
    assert (p + s)[|p + s| - |t|..] == s[|s| - |t|..];
  }

  lemma EndsWithTransitive(s: string, t: string, u: string)
    requires EndsWith(s, t) && EndsWith(t, u)
    ensures EndsWith(s, u)
  {
    assert s[|s| - |u|..] == s[|s| - |t|..][|t| - |u|..];
  }

  /** The anchor branch wins: an anchored rule is filed under `relative_event`, by anchor and
      offset, whatever its month and anga fields hold. */
  lemma AnchorBranchWins(e: Event, mt: Option<MonthType>, mn: Option<int>, at: Option<AngaType>, an: Option<int>)
    requires e.timing.Some? && e.timing.value.anchorFestivalId.Some? && e.timing.value.offset.Some?
    ensures var t := e.timing.value;
      var e' := e.(timing := Some(t.(monthType := mt, monthNumber := mn, angaType := at, angaNumber := an)));
      && PathParts(e') == PathParts(e)
      && PathParts(e) == Success(["relative_event", AnchorDirName(t.anchorFestivalId.value),
                                  "offset__" + FormatInt02(t.offset.value), SanitizeId(e.id) + InfoSuffix])
  {
  }

  /** Formatting a path fails exactly in these cases: an anchored rule without offset, a
      description-only rule without tags, a month/anga rule without anga number. */
  lemma PathPartsErrors(e: Event)
    ensures PathParts(e) == Failure(OffsetNotInteger) <==>
      e.timing.Some? && e.timing.value.anchorFestivalId.Some? && e.timing.value.offset.None?
    ensures PathParts(e) == Failure(TagsNotList) <==>
      BranchOf(e) == DescriptionOnly && e.tags.None?
    ensures PathParts(e) == Failure(AngaNumberNotInteger) <==>
      BranchOf(e) == MonthAnga && e.timing.value.angaNumber.None?
    ensures PathParts(e) != Failure(NoTiming)
  {
  }

  /** Every component of a path is free of `/` and, but for an empty anchor id, non-empty; the
      last one is the file name. */
  lemma PathPartsWellFormed(e: Event)
    requires PathParts(e).Success?
    ensures var parts := PathParts(e).value;
      && |parts| >= 2
      && (forall p :: p in parts ==> '/' !in p)
      && ((BranchOf(e) == RelativeEvent ==> e.timing.value.anchorFestivalId.value != "") ==>
            (forall i :: 0 <= i < |parts| - 1 ==> parts[i] != ""))
      && parts[|parts| - 1] == SanitizeId(e.id) + InfoSuffix
  {
    SlashFreeFileName(SanitizeId(e.id));
    match BranchOf(e)
    case RelativeEvent => RelativeEventParts(e);
    case DescriptionOnly => assert PathParts(e).value == ["description_only", SanitizeId(e.id) + InfoSuffix];
    case MonthAnga => MonthAngaParts(e);
  }

  lemma RelativeEventParts(e: Event)
    requires BranchOf(e) == RelativeEvent && PathParts(e).Success?
    requires '/' !in SanitizeId(e.id) + InfoSuffix
    ensures var t := e.timing.value;
      var off := "offset__" + FormatInt02(t.offset.value);
      && '/' !in off && off != ""
      && PathParts(e).value == ["relative_event", AnchorDirName(t.anchorFestivalId.value), off, SanitizeId(e.id) + InfoSuffix]
  {
    var t := e.timing.value;
    var off := "offset__" + FormatInt02(t.offset.value);
    FormatInt02SlashFree(t.offset.value);
    forall i | 0 <= i < |off| ensures off[i] != '/' {
      if i >= 8 {
        assert off[i] == FormatInt02(t.offset.value)[i - 8];
      }
    }
  }

  lemma MonthAngaParts(e: Event)
    requires BranchOf(e) == MonthAnga && PathParts(e).Success?
    ensures var t := e.timing.value;
      var mt := OptMonthTypeName(t.monthType);
      var at := OptAngaTypeName(t.angaType);
      var mn := FormatInt02(t.monthNumber.value);
      var an := FormatInt02(t.angaNumber.value);
      && '/' !in mt && mt != "" && '/' !in at && at != ""
      && '/' !in mn && mn != "" && '/' !in an && an != ""
      && PathParts(e).value == [mt, at, mn, an, SanitizeId(e.id) + InfoSuffix]
  {
    var t := e.timing.value;
    FormatInt02SlashFree(t.monthNumber.value);
    FormatInt02SlashFree(t.angaNumber.value);
    MonthTypeNameSlashFree(t.monthType);
    AngaTypeNameSlashFree(t.angaType);
  }

  lemma MonthTypeNameSlashFree(t: Option<MonthType>)
    ensures '/' !in OptMonthTypeName(t) && OptMonthTypeName(t) != ""
  {
    var s := OptMonthTypeName(t);
    assert forall i :: 0 <= i < |s| ==> s[i] != '/';
  }

  lemma AngaTypeNameSlashFree(t: Option<AngaType>)
    ensures '/' !in OptAngaTypeName(t) && OptAngaTypeName(t) != ""
  {
    var s := OptAngaTypeName(t);
    assert forall i :: 0 <= i < |s| ==> s[i] != '/';
  }

  lemma FormatInt02SlashFree(n: int)
    ensures '/' !in FormatInt02(n) && FormatInt02(n) != ""
  {
    var s := FormatInt02(n);
    assert forall i :: 0 <= i < |s| ==> s[i] != '/';
  }
}
