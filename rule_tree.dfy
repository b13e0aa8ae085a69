/** The rule tree: every rule filed under the segments of its storage path (with `__info.toml`
    removed), looked up by month type, anga type, month key and anga key. */
module RuleTree {
  import opened Wrappers
  import opened Strings
  import opened OrderedDicts
  import opened FestivalEvents

  // ---------------------------------------------------------------------------------------
  // Path segments

  /** The pieces of a `/`-separated path that are not empty. */
  function NonEmptySegments(ps: seq<string>): (r: seq<string>)
    ensures |r| <= |ps|
    ensures forall i :: 0 <= i < |r| ==> r[i] != ""
  {
    if |ps| == 0 then []
    else (if ps[0] == "" then [] else [ps[0]]) + NonEmptySegments(ps[1..])
  }

  lemma {:induction false} NonEmptySegmentsConcat(a: seq<string>, b: seq<string>)
    ensures NonEmptySegments(a + b) == NonEmptySegments(a) + NonEmptySegments(b)
  {
    if |a| == 0 {
      assert a + b == b;
    } else {
      assert (a + b)[0] == a[0] && (a + b)[1..] == a[1..] + b;
      NonEmptySegmentsConcat(a[1..], b);
      var h := if a[0] == "" then [] else [a[0]];
      assert NonEmptySegments(a + b) == h + NonEmptySegments(a[1..] + b);
    }
  }

  lemma NonEmptySegmentsAll(ps: seq<string>)
    requires forall i :: 0 <= i < |ps| ==> ps[i] != ""
    ensures NonEmptySegments(ps) == ps
  {
    if |ps| > 0 {
      NonEmptySegmentsAll(ps[1..]);
    }
  }

  /** The segments `tree_maker` files a leaf under: the non-empty pieces between `/`s. */
  function Segments(path: string): seq<string> {
    NonEmptySegments(Split(path, '/'))
  }

  // ---------------------------------------------------------------------------------------
  // The tree

  /** A rule tree: each directory (a sequence of segments) holds its leaves, by leaf name, in
      the order they were first filed. */
  type Tree = map<seq<string>, Dict<Event>>

  /** Every directory of the tree has distinct leaf names. */
  predicate TreeValid(t: Tree) {
    forall dir :: dir in t ==> Valid(t[dir])
  }

  /** The leaves of a directory; none when the tree has no such directory. */
  function LeafDict(t: Tree, dir: seq<string>): Dict<Event> {
    if dir in t then t[dir] else []
  }

  /** No percent-quoting: the tree is built with an empty base directory, which is not a URL. */
  function NoQuote(s: string): string {
    s
  }

  /** The `path_fn` given to `tree_maker`: the rule's storage path under an empty base
      directory, with `__info.toml` removed. It calls the path function as written, so a rule
      without timing makes it raise. */
  function TreePath(e: Event): (r: Result<string, PathError>)
    ensures r.Failure? <==> e.timing.None? || PathParts(e).Failure?
    ensures e.timing.None? ==> r == Failure(NoTiming)
  {
    match StorageFileNameGranularAsWritten(e, "", NoQuote)
    case Failure(err) => Failure(err)
    case Success(p) => Success(ReplaceAll(p, InfoSuffix, ""))
  }

  /** Files `e` under the directory made of all segments but the last, as the last. */
  function Insert(t: Tree, segs: seq<string>, e: Event): Tree {
    if |segs| == 0 then t
    else
      var dir := segs[..|segs| - 1];
      t[dir := Put(LeafDict(t, dir), segs[|segs| - 1], e)]
  }

  /** `tree_maker` over the rules in order; the first rule whose path cannot be formatted
      makes it fail. */
  function MakeTree(leaves: seq<Event>): Result<Tree, PathError> {
    if |leaves| == 0 then Success(map[])
    else
      match MakeTree(leaves[..|leaves| - 1])
      case Failure(err) => Failure(err)
      case Success(t) =>
        match TreePath(leaves[|leaves| - 1])
        case Failure(err) => Failure(err)
        case Success(path) => Success(Insert(t, Segments(path), leaves[|leaves| - 1]))
  }

  /** The tree is built exactly when every rule can be filed. */
  lemma {:induction false} MakeTreeBuilt(leaves: seq<Event>)
    ensures MakeTree(leaves).Success? <==> forall j :: 0 <= j < |leaves| ==> TreePath(leaves[j]).Success?
  {
    if |leaves| > 0 {
      var p := leaves[..|leaves| - 1];
      var last := leaves[|leaves| - 1];
      assert forall j :: 0 <= j < |p| ==> p[j] == leaves[j];
      MakeTreeBuilt(p);
      assert MakeTree(leaves).Success? <==> MakeTree(p).Success? && TreePath(last).Success?;
      if forall j :: 0 <= j < |leaves| ==> TreePath(leaves[j]).Success? {
        assert forall j :: 0 <= j < |p| ==> TreePath(p[j]).Success?;
        assert TreePath(last).Success?;
      } else {
        var j :| 0 <= j < |leaves| && !TreePath(leaves[j]).Success?;
        if j == |leaves| - 1 {
          assert !TreePath(last).Success?;
        } else {
          assert !TreePath(p[j]).Success?;
        }
      }
    }
  }

  /** A rule without timing makes `tree_maker` raise; when every rule before it can be filed,
      what it raises is the missing timing. */
  lemma {:induction false} MakeTreeNoTiming(leaves: seq<Event>, i: nat)
    requires i < |leaves| && leaves[i].timing.None?
    ensures MakeTree(leaves).Failure?
    ensures (forall j :: 0 <= j < i ==> TreePath(leaves[j]).Success?) ==> MakeTree(leaves) == Failure(NoTiming)
  {
    var p := leaves[..|leaves| - 1];
    assert forall j :: 0 <= j < |p| ==> p[j] == leaves[j];
    if i == |leaves| - 1 {
      if forall j :: 0 <= j < i ==> TreePath(leaves[j]).Success? {
        MakeTreeBuilt(p);
      }
    } else {
      MakeTreeNoTiming(p, i);
    }
  }

  /** When every rule has a path but for some that lack a timing, a missing timing is the only
      thing `tree_maker` can raise. */
  lemma {:induction false} MakeTreeOnlyNoTiming(leaves: seq<Event>)
    requires forall j :: 0 <= j < |leaves| ==> leaves[j].timing.None? || PathParts(leaves[j]).Success?
    ensures MakeTree(leaves).Failure? ==> MakeTree(leaves).error == NoTiming
  {
    if |leaves| > 0 {
      var p := leaves[..|leaves| - 1];
      assert forall j :: 0 <= j < |p| ==> p[j] == leaves[j];
      MakeTreeOnlyNoTiming(p);
      var e := leaves[|leaves| - 1];
      if e.timing.Some? {
        TreePathSegments(e);
      }
    }
  }

  /** `e` is filed in directory `dir` as leaf `leaf`. */
  predicate FiledAt(e: Event, dir: seq<string>, leaf: string) {
    TreePath(e).Success? && Segments(TreePath(e).value) == dir + [leaf]
  }

  /** The last of `leaves` filed at `dir`/`leaf`, if any. */
  function LastFiledAt(leaves: seq<Event>, dir: seq<string>, leaf: string): (r: Option<Event>)
    ensures r.Some? ==> r.value in leaves && FiledAt(r.value, dir, leaf)
    ensures r.None? <==> forall i :: 0 <= i < |leaves| ==> !FiledAt(leaves[i], dir, leaf)
  {
    if |leaves| == 0 then None
    else if FiledAt(leaves[|leaves| - 1], dir, leaf) then Some(leaves[|leaves| - 1])
    else
      var pre := leaves[..|leaves| - 1];
      var r := LastFiledAt(pre, dir, leaf);
      assert leaves == pre + [leaves[|leaves| - 1]];
      r
  }

  lemma MakeTreeStep(leaves: seq<Event>)
    requires |leaves| > 0 && MakeTree(leaves).Success?
    ensures MakeTree(leaves[..|leaves| - 1]).Success? && TreePath(leaves[|leaves| - 1]).Success?
    ensures MakeTree(leaves).value ==
      Insert(MakeTree(leaves[..|leaves| - 1]).value, Segments(TreePath(leaves[|leaves| - 1]).value), leaves[|leaves| - 1])
  {
    var p := MakeTree(leaves[..|leaves| - 1]);
    var q := TreePath(leaves[|leaves| - 1]);
    assert p.Success? && q.Success?;
  }

  lemma InsertValid(t: Tree, segs: seq<string>, e: Event)
    requires TreeValid(t)
    ensures TreeValid(Insert(t, segs, e))
  {
    if |segs| > 0 {
      PutValid(LeafDict(t, segs[..|segs| - 1]), segs[|segs| - 1], e);
    }
  }

  /** Filing a rule changes only the leaf it is filed as. */
  lemma InsertGet(t: Tree, segs: seq<string>, e: Event, dir: seq<string>, leaf: string)
    ensures Get(LeafDict(Insert(t, segs, e), dir), leaf) ==
      if segs == dir + [leaf] then Some(e) else Get(LeafDict(t, dir), leaf)
  {
    if |segs| > 0 {
      assert segs == segs[..|segs| - 1] + [segs[|segs| - 1]];
      if segs == dir + [leaf] {
        assert segs[..|segs| - 1] == dir;
      }
    }
  }

  lemma {:induction false} MakeTreeValid(leaves: seq<Event>)
    requires MakeTree(leaves).Success?
    ensures TreeValid(MakeTree(leaves).value)
  {
    if |leaves| > 0 {
      MakeTreeStep(leaves);
      MakeTreeValid(leaves[..|leaves| - 1]);
      InsertValid(MakeTree(leaves[..|leaves| - 1]).value, Segments(TreePath(leaves[|leaves| - 1]).value), leaves[|leaves| - 1]);
    }
  }

  /** In the tree made from `leaves`, a leaf holds the last rule filed at that place: a later
      rule with the same path overwrites an earlier one. */
  lemma {:induction false} MakeTreeGet(leaves: seq<Event>, dir: seq<string>, leaf: string)
    requires MakeTree(leaves).Success?
    ensures Get(LeafDict(MakeTree(leaves).value, dir), leaf) == LastFiledAt(leaves, dir, leaf)
  {
    if |leaves| > 0 {
      MakeTreeStep(leaves);
      MakeTreeGet(leaves[..|leaves| - 1], dir, leaf);
      InsertGet(MakeTree(leaves[..|leaves| - 1]).value, Segments(TreePath(leaves[|leaves| - 1]).value), leaves[|leaves| - 1], dir, leaf);
    }
  }

  // ---------------------------------------------------------------------------------------
  // Where a rule is filed

  /** A rule's leaf name: its file name without `__info.toml`. */
  function LeafName(e: Event): string {
    ReplaceAll(SanitizeId(e.id), InfoSuffix, "")
  }

  function DeleteInfo(ps: seq<string>): (qs: seq<string>)
    ensures |qs| == |ps|
    ensures forall i :: 0 <= i < |ps| ==> qs[i] == ReplaceAll(ps[i], InfoSuffix, "")
  {
    if |ps| == 0 then [] else [ReplaceAll(ps[0], InfoSuffix, "")] + DeleteInfo(ps[1..])
  }

  lemma InfoSuffixFacts()
    ensures |InfoSuffix| == 11 && InfoSuffix[6] == '.' && '/' !in InfoSuffix
    ensures Unbordered(InfoSuffix)
  {
    var p := InfoSuffix;
    assert p == ['_', '_', 'i', 'n', 'f', 'o', '.', 't', 'o', 'm', 'l'];
    forall k | 0 < k < |p| ensures p[..k] != p[|p| - k..] {
      assert p[..k][0] == '_';
      if k == 10 {
        assert p[..k][1] == '_' && p[|p| - k..][1] == 'i';
      } else {
        assert p[|p| - k..][0] == p[|p| - k] != '_';
      }
    }
  }

  /** A string without `.` has no occurrence of `__info.toml`. */
  lemma NoDotUnchanged(s: string)
    requires '.' !in s
    ensures ReplaceAll(s, InfoSuffix, "") == s
  {
    InfoSuffixFacts();
    ReplaceAllAbsent(s, InfoSuffix, "", 6);
  }

  lemma FormatInt02NoDot(n: int)
    ensures '.' !in FormatInt02(n) && '/' !in FormatInt02(n) && FormatInt02(n) != ""
  {
    var s := FormatInt02(n);
    assert forall i :: 0 <= i < |s| ==> s[i] != '.' && s[i] != '/';
  }

  /** Removing `__info.toml` from a `/`-joined path removes it from each piece. */
  lemma {:induction false} DeleteInfoJoin(ps: seq<string>)
    requires |ps| >= 1
    ensures ReplaceAll(Join(ps, '/'), InfoSuffix, "") == Join(DeleteInfo(ps), '/')
  {
    InfoSuffixFacts();
    if |ps| > 1 {
      DeleteInfoJoin(ps[1..]);
      ReplaceAllAround(ps[0], Join(ps[1..], '/'), '/', InfoSuffix, "");
      assert DeleteInfo(ps) == [DeleteInfo(ps)[0]] + DeleteInfo(ps[1..]);
    }
  }

  /** The segments a rule is filed under are the non-empty components of its storage path,
      each with `__info.toml` removed. */
  lemma TreePathSegments(e: Event)
    requires e.timing.Some? && PathParts(e).Success?
    ensures TreePath(e).Success?
    ensures Segments(TreePath(e).value) == NonEmptySegments(DeleteInfo(PathParts(e).value))
  {
    AsWrittenAgreesWithTiming(e, "", NoQuote);
    InfoSuffixFacts();
    var parts := PathParts(e).value;
    PathPartsWellFormed(e);
    var j := Join(parts, '/');
    assert !StartsWith("", "http");
    assert StorageFileNameGranular(e, "", NoQuote) == Success("" + ['/'] + j);
    ReplaceAllAround("", j, '/', InfoSuffix, "");
    DeleteInfoJoin(parts);
    var qs := DeleteInfo(parts);
    assert TreePath(e).value == "" + ['/'] + Join(qs, '/');
    SplitAround("", Join(qs, '/'), '/');
    forall i | 0 <= i < |qs| ensures '/' !in qs[i] {
      assert '/' !in parts[i];
    }
    JoinSplitRoundTrip(qs, '/');
    assert Split(TreePath(e).value, '/') == [""] + qs;
    assert NonEmptySegments([""] + qs) == NonEmptySegments(qs) by {
      assert ([""] + qs)[1..] == qs;
    }
  }

  /** The leaf a rule is filed as: its file name with `__info.toml` taken away. */
  lemma LastSegment(e: Event)
    requires PathParts(e).Success?
    ensures DeleteInfo(PathParts(e).value)[|PathParts(e).value| - 1] == LeafName(e)
  {
    InfoSuffixFacts();
    PathPartsWellFormed(e);
    DeleteAllAppended(SanitizeId(e.id), InfoSuffix);
  }

  /** The month/anga directory a rule is filed in. */
  function MonthAngaDir(t: Timing): seq<string>
    requires t.monthNumber.Some? && t.angaNumber.Some?
  {
    [OptMonthTypeName(t.monthType), OptAngaTypeName(t.angaType),
     FormatInt02(t.monthNumber.value), FormatInt02(t.angaNumber.value)]
  }

  lemma TypeNamesPlain(t: Timing)
    ensures var m := OptMonthTypeName(t.monthType); m != "" && '.' !in m
    ensures var a := OptAngaTypeName(t.angaType); a != "" && '.' !in a
  {
  }

  /** The segments of a month/anga rule: its four directory names, then its leaf name unless
      that is empty. */
  lemma MonthAngaSegments(e: Event)
    requires PathParts(e).Success? && BranchOf(e) == MonthAnga
    ensures Segments(TreePath(e).value) ==
      MonthAngaDir(e.timing.value) + (if LeafName(e) == "" then [] else [LeafName(e)])
  {
    var dir := MonthAngaDir(e.timing.value);
    TreePathSegments(e);
    MonthAngaLeaves(e);
    NonEmptySegmentsConcat(dir, [LeafName(e)]);
    NonEmptySegmentsAll(dir);
  }

  /** With `__info.toml` removed, a month/anga rule's path parts are its four directory names,
      none of them empty, and its leaf name. */
  lemma MonthAngaLeaves(e: Event)
    requires PathParts(e).Success? && BranchOf(e) == MonthAnga
    ensures var dir := MonthAngaDir(e.timing.value);
      && DeleteInfo(PathParts(e).value) == dir + [LeafName(e)]
      && forall i :: 0 <= i < |dir| ==> dir[i] != ""
  {
    var t := e.timing.value;
    var dir := MonthAngaDir(t);
    MonthAngaParts(e);
    var parts := PathParts(e).value;
    assert parts == dir + [SanitizeId(e.id) + InfoSuffix];
    LastSegment(e);
    TypeNamesPlain(t);
    FormatInt02NoDot(t.monthNumber.value);
    FormatInt02NoDot(t.angaNumber.value);
    var qs := DeleteInfo(parts);
    forall i | 0 <= i < 4 ensures qs[i] == dir[i] && dir[i] != "" {
      NoDotUnchanged(dir[i]);
    }
    assert qs == dir + [LeafName(e)];
  }

  /** A rule filed four levels deep is a month/anga rule, in the directory named by its month
      type, anga type, month number and anga number. Anchored and description-only rules are
      never filed there. */
  lemma FiledFourDeep(e: Event, dir: seq<string>, leaf: string)
    requires FiledAt(e, dir, leaf) && |dir| == 4
    ensures BranchOf(e) == MonthAnga
    ensures dir == MonthAngaDir(e.timing.value) && leaf == LeafName(e)
  {
    assert PathParts(e).Success?;
    match BranchOf(e)
    case RelativeEvent =>
      TreePathSegments(e);
      assert false;
    case DescriptionOnly =>
      TreePathSegments(e);
      assert false;
    case MonthAnga =>
      MonthAngaSegments(e);
      var segs := Segments(TreePath(e).value);
      assert segs == dir + [leaf];
      var d := MonthAngaDir(e.timing.value);
      if LeafName(e) == "" {
        assert false;
      }
      assert segs == d + [LeafName(e)];
      assert segs[..4] == d && segs[..4] == dir;
  }

  /** A month/anga rule with a non-empty leaf name is filed in its month/anga directory. */
  lemma MonthAngaFiled(e: Event)
    requires PathParts(e).Success? && BranchOf(e) == MonthAnga && LeafName(e) != ""
    ensures FiledAt(e, MonthAngaDir(e.timing.value), LeafName(e))
  {
    MonthAngaSegments(e);
  }

  // ---------------------------------------------------------------------------------------
  // Month keys and lookup

  predicate IsIntegral(m: real) {
    Trunc(m) as real == m
  }

  /** The month key: `"%02d" % month` for a regular month, `"%02d.5" % month` for an
      intercalary (adhika) one. */
  function MonthKey(month: real): string {
    if !IsIntegral(month) then FormatInt02(Trunc(month)) + ".5" else FormatInt02(Trunc(month))
  }

  /** A regular month's key reads back as that month. */
  lemma MonthKeyRegular(m: real)
    requires IsIntegral(m)
    ensures ParseInt(MonthKey(m)) == Some(Trunc(m))
    ensures '.' !in MonthKey(m)
    ensures 0.0 <= m < 100.0 ==> |MonthKey(m)| == 2
  {
    FormatInt02RoundTrip(Trunc(m));
    FormatInt02NoDot(Trunc(m));
  }

  /** An adhika month's key is the regular key of its whole part, followed by `.5`. */
  lemma MonthKeyAdhika(m: real)
    requires !IsIntegral(m)
    ensures var k := MonthKey(m); |k| >= 4 && k[|k| - 2..] == ".5" && ParseInt(k[..|k| - 2]) == Some(Trunc(m))
    ensures '.' in MonthKey(m)
  {
    var f := FormatInt02(Trunc(m));
    var k := f + ".5";
    assert k[..|k| - 2] == f && k[|k| - 2..] == ".5";
    assert k[|k| - 2] == '.';
    FormatInt02RoundTrip(Trunc(m));
  }

  /** An adhika month's key never equals a regular month's key. */
  lemma AdhikaKeyDistinct(regular: real, adhika: real)
    requires IsIntegral(regular) && !IsIntegral(adhika)
    ensures MonthKey(regular) != MonthKey(adhika)
  {
    MonthKeyRegular(regular);
    MonthKeyAdhika(adhika);
  }

  /** Distinct regular months have distinct keys. */
  lemma MonthKeyInjective(m1: real, m2: real)
    requires IsIntegral(m1) && IsIntegral(m2) && MonthKey(m1) == MonthKey(m2)
    ensures m1 == m2
  {
    FormatInt02Injective(Trunc(m1), Trunc(m2));
  }

  /** What the lookup may be handed as `anga`: a plain number, an `Anga`, or a `Tithi` (an
      `Anga` that also knows its lunar month). */
  datatype AngaValue = Number(n: int) | Anga(index: int) | Tithi(index: int, monthIndex: real)

  /** An `Anga` is reduced to its index. */
  function AngaIndex(a: AngaValue): int {
    match a
    case Number(n) => n
    case Anga(i) => i
    case Tithi(i, _) => i
  }

  /** The four keys of a lookup: month type and anga type lower-cased, month key, anga key. */
  function LookupKey(monthType: string, month: real, angaTypeId: string, anga: AngaValue): seq<string> {
    [LowerAscii(monthType), LowerAscii(angaTypeId), MonthKey(month), FormatInt02(AngaIndex(anga))]
  }

  /** Looking up in a collection whose tree was never built (`None[...]`) raises. */
  datatype LookupError = TreeNotBuilt

  /** `get_month_anga_fests`: the leaves at the looked-up directory, or none when any of the
      four levels is missing. */
  function MonthAngaFests(tree: Option<Tree>, monthType: string, month: real, angaTypeId: string, anga: AngaValue)
    : (r: Result<Dict<Event>, LookupError>)
    ensures tree.None? <==> r.Failure?
    ensures tree.Some? && LookupKey(monthType, month, angaTypeId, anga) !in tree.value ==> r == Success([])
  {
    match tree
    case None => Failure(TreeNotBuilt)
    case Some(t) => Success(LeafDict(t, LookupKey(monthType, month, angaTypeId, anga)))
  }

  /** What a lookup in a tree built from `leaves` finds is one of those rules, a month/anga
      rule whose month type, anga type, month number and anga number format to the looked-up
      keys, and the last such rule with that leaf name. */
  lemma MonthAngaFestsSound(leaves: seq<Event>, monthType: string, month: real, angaTypeId: string,
                            anga: AngaValue, leaf: string, e: Event)
    requires MakeTree(leaves).Success?
    requires Get(LeafDict(MakeTree(leaves).value, LookupKey(monthType, month, angaTypeId, anga)), leaf) == Some(e)
    ensures e in leaves && BranchOf(e) == MonthAnga && e.timing.value.angaNumber.Some? && LeafName(e) == leaf
    ensures var t := e.timing.value;
      && OptMonthTypeName(t.monthType) == LowerAscii(monthType)
      && OptAngaTypeName(t.angaType) == LowerAscii(angaTypeId)
      && FormatInt02(t.monthNumber.value) == MonthKey(month)
      && t.angaNumber.value == AngaIndex(anga)
    ensures IsIntegral(month) ==> e.timing.value.monthNumber.value == Trunc(month)
  {
    FoundIsFiled(leaves, LookupKey(monthType, month, angaTypeId, anga), leaf, e);
    FiledAtLookupKey(monthType, month, angaTypeId, anga, leaf, e);
  }

  lemma FoundIsFiled(leaves: seq<Event>, dir: seq<string>, leaf: string, e: Event)
    requires MakeTree(leaves).Success?
    requires Get(LeafDict(MakeTree(leaves).value, dir), leaf) == Some(e)
    ensures e in leaves && FiledAt(e, dir, leaf)
  {
    MakeTreeGet(leaves, dir, leaf);
  }

  lemma FiledAtLookupKey(monthType: string, month: real, angaTypeId: string, anga: AngaValue, leaf: string, e: Event)
    requires FiledAt(e, LookupKey(monthType, month, angaTypeId, anga), leaf)
    ensures BranchOf(e) == MonthAnga && e.timing.value.angaNumber.Some? && LeafName(e) == leaf
    ensures var t := e.timing.value;
      && OptMonthTypeName(t.monthType) == LowerAscii(monthType)
      && OptAngaTypeName(t.angaType) == LowerAscii(angaTypeId)
      && FormatInt02(t.monthNumber.value) == MonthKey(month)
      && t.angaNumber.value == AngaIndex(anga)
    ensures IsIntegral(month) ==> e.timing.value.monthNumber.value == Trunc(month)
  {
    FiledFourDeep(e, LookupKey(monthType, month, angaTypeId, anga), leaf);
    var t := e.timing.value;
    FormatInt02Injective(t.angaNumber.value, AngaIndex(anga));
    if IsIntegral(month) {
      FormatInt02Injective(t.monthNumber.value, Trunc(month));
    }
  }

  /** A lookup at an adhika month finds nothing in a tree built from rules: month numbers are
      integers and are filed under regular keys. */
  lemma AdhikaLookupEmpty(leaves: seq<Event>, monthType: string, month: real, angaTypeId: string,
                          anga: AngaValue, leaf: string)
    requires MakeTree(leaves).Success? && !IsIntegral(month)
    ensures Get(MonthAngaFests(Some(MakeTree(leaves).value), monthType, month, angaTypeId, anga).value, leaf).None?
  {
    var key := LookupKey(monthType, month, angaTypeId, anga);
    MakeTreeGet(leaves, key, leaf);
    var r := LastFiledAt(leaves, key, leaf);
    if r.Some? {
      FiledFourDeep(r.value, key, leaf);
      MonthKeyAdhika(month);
      FormatInt02NoDot(r.value.timing.value.monthNumber.value);
      assert false;
    }
  }

  /** Conversely, a month/anga rule is found by the lookup its own fields name, unless a later
      rule was filed in the same place. */
  lemma MonthAngaFestsComplete(leaves: seq<Event>, i: nat, monthType: string, month: real, angaTypeId: string)
    requires MakeTree(leaves).Success? && i < |leaves|
    requires var e := leaves[i];
      PathParts(e).Success? && BranchOf(e) == MonthAnga && LeafName(e) != ""
    requires var t := leaves[i].timing.value;
      && OptMonthTypeName(t.monthType) == LowerAscii(monthType)
      && OptAngaTypeName(t.angaType) == LowerAscii(angaTypeId)
      && IsIntegral(month) && Trunc(month) == t.monthNumber.value
    requires forall j :: i < j < |leaves| ==> !FiledAt(leaves[j], MonthAngaDir(leaves[i].timing.value), LeafName(leaves[i]))
    ensures var t := leaves[i].timing.value;
      Get(MonthAngaFests(Some(MakeTree(leaves).value), monthType, month, angaTypeId, Number(t.angaNumber.value)).value,
          LeafName(leaves[i])) == Some(leaves[i])
  {
    var e := leaves[i];
    var t := e.timing.value;
    var key := LookupKey(monthType, month, angaTypeId, Number(t.angaNumber.value));
    assert key == MonthAngaDir(t);
    MonthAngaFiled(e);
    MakeTreeGet(leaves, key, LeafName(e));
    LastFiledAtIs(leaves, i, key, LeafName(e));
  }

  lemma {:induction false} LastFiledAtIs(leaves: seq<Event>, i: nat, dir: seq<string>, leaf: string)
    requires i < |leaves| && FiledAt(leaves[i], dir, leaf)
    requires forall j :: i < j < |leaves| ==> !FiledAt(leaves[j], dir, leaf)
    ensures LastFiledAt(leaves, dir, leaf) == Some(leaves[i])
  {
    if i < |leaves| - 1 {
      var pre := leaves[..|leaves| - 1];
      assert !FiledAt(leaves[|leaves| - 1], dir, leaf);
      LastFiledAtIs(pre, i, dir, leaf);
    }
  }

  // ---------------------------------------------------------------------------------------
  // Gathering the rules possibly relevant to a set of angas

  const LunarMonthDir := "lunar_month"

  /** One lookup: a month, and the anga looked up in it. */
  datatype Query = Query(month: real, anga: AngaValue)

  /** The month in force after the given angas: the month of the last tithi among them when
      months are lunar, the month given otherwise. */
  function EffectiveMonth(monthType: string, month: real, angas: seq<AngaValue>): real {
    if |angas| == 0 then month
    else
      var a := angas[|angas| - 1];
      if a.Tithi? && monthType == LunarMonthDir then a.monthIndex
      else EffectiveMonth(monthType, month, angas[..|angas| - 1])
  }

  /** The lookups `get_possibly_relevant_fests` makes, in order: for every anga, one at the
      month in force and one at the wildcard month 0. */
  function Queries(monthType: string, month: real, angas: seq<AngaValue>): (qs: seq<Query>)
    ensures |qs| == 2 * |angas|
  {
    if |angas| == 0 then []
    else
      var a := angas[|angas| - 1];
      Queries(monthType, month, angas[..|angas| - 1]) + [Query(EffectiveMonth(monthType, month, angas), a), Query(0.0, a)]
  }

  /** The leaves a lookup finds. */
  function Lookup(t: Tree, monthType: string, angaTypeId: string, q: Query): Dict<Event> {
    LeafDict(t, LookupKey(monthType, q.month, angaTypeId, q.anga))
  }

  /** The results of the lookups, in order. */
  function Lookups(t: Tree, monthType: string, angaTypeId: string, qs: seq<Query>): (ds: seq<Dict<Event>>)
    ensures |ds| == |qs|
  {
    if |qs| == 0 then []
    else Lookups(t, monthType, angaTypeId, qs[..|qs| - 1]) + [Lookup(t, monthType, angaTypeId, qs[|qs| - 1])]
  }

  lemma {:induction false} LookupsAt(t: Tree, monthType: string, angaTypeId: string, qs: seq<Query>, i: nat)
    requires i < |qs|
    ensures Lookups(t, monthType, angaTypeId, qs)[i] == Lookup(t, monthType, angaTypeId, qs[i])
  {
    if i < |qs| - 1 {
      LookupsAt(t, monthType, angaTypeId, qs[..|qs| - 1], i);
    }
  }

  /** The union of the lookups' results, later ones overwriting earlier ones (`update`). */
  function Gather(t: Tree, monthType: string, angaTypeId: string, qs: seq<Query>): Dict<Event> {
    UpdateAll([], Lookups(t, monthType, angaTypeId, qs))
  }

  /** `get_possibly_relevant_fests`. */
  function RelevantFests(tree: Option<Tree>, monthType: string, month: real, angaTypeId: string,
                         angas: seq<AngaValue>): (r: Result<Dict<Event>, LookupError>)
    ensures |angas| == 0 ==> r == Success([])
    ensures |angas| > 0 ==> (r.Failure? <==> tree.None?)
  {
    if |angas| == 0 then Success([])
    else if tree.None? then Failure(TreeNotBuilt)
    else Success(Gather(tree.value, monthType, angaTypeId, Queries(monthType, month, angas)))
  }

  /** The lookups for the `i`th anga: at the month in force after it, then at month 0. */
  lemma {:induction false} QueriesAt(monthType: string, month: real, angas: seq<AngaValue>, i: nat)
    requires i < |angas|
    ensures Queries(monthType, month, angas)[2 * i] == Query(EffectiveMonth(monthType, month, angas[..i + 1]), angas[i])
    ensures Queries(monthType, month, angas)[2 * i + 1] == Query(0.0, angas[i])
  {
    var pre := angas[..|angas| - 1];
    if i < |angas| - 1 {
      QueriesAt(monthType, month, pre, i);
      assert pre[..i + 1] == angas[..i + 1];
    } else {
      assert angas[..i + 1] == angas;
    }
  }

  /** Without lunar months the month looked up is always the one given. */
  lemma {:induction false} EffectiveMonthNotLunar(monthType: string, month: real, angas: seq<AngaValue>)
    requires monthType != LunarMonthDir
    ensures EffectiveMonth(monthType, month, angas) == month
  {
    if |angas| > 0 {
      EffectiveMonthNotLunar(monthType, month, angas[..|angas| - 1]);
    }
  }

  /** Under lunar months a tithi's month stays in force for every later anga that is not a
      tithi; before the first tithi the given month is in force. */
  lemma {:induction false} EffectiveMonthLastTithi(month: real, angas: seq<AngaValue>, j: int)
    requires -1 <= j < |angas|
    requires j >= 0 ==> angas[j].Tithi?
    requires forall k :: j < k < |angas| ==> !angas[k].Tithi?
    ensures EffectiveMonth(LunarMonthDir, month, angas) == if j >= 0 then angas[j].monthIndex else month
  {
    if |angas| > 0 && j < |angas| - 1 {
      EffectiveMonthLastTithi(month, angas[..|angas| - 1], j);
    }
  }

  lemma LookupsValid(t: Tree, monthType: string, angaTypeId: string, qs: seq<Query>)
    requires TreeValid(t)
    ensures forall i :: 0 <= i < |qs| ==> Valid(Lookups(t, monthType, angaTypeId, qs)[i])
  {
    forall i | 0 <= i < |qs| ensures Valid(Lookups(t, monthType, angaTypeId, qs)[i]) {
      LookupsAt(t, monthType, angaTypeId, qs, i);
    }
  }

  lemma GatherGet(t: Tree, monthType: string, angaTypeId: string, qs: seq<Query>, leaf: string, e: Event)
    requires TreeValid(t)
    ensures var ds := Lookups(t, monthType, angaTypeId, qs);
      && Valid(UpdateAll([], ds))
      && (Get(UpdateAll([], ds), leaf) == Some(e) <==> exists i :: LastHolder(ds, leaf, e, i))
  {
    var ds := Lookups(t, monthType, angaTypeId, qs);
    LookupsValid(t, monthType, angaTypeId, qs);
    UpdateAllValid([], ds);
    if h :| 0 <= h < |ds| && Get(ds[h], leaf).Some? {
      UpdateAllGet([], ds, leaf, e, h);
    } else {
      UpdateAllUntouched([], ds, leaf);
    }
  }

  /** The gathered rules have distinct leaf names; a rule is gathered under a leaf name exactly
      when the last lookup that found anything under that name found that rule. */
  lemma RelevantFestsGet(t: Tree, monthType: string, month: real, angaTypeId: string,
                         angas: seq<AngaValue>, leaf: string, e: Event)
    requires TreeValid(t)
    ensures var r := RelevantFests(Some(t), monthType, month, angaTypeId, angas).value;
      && Valid(r)
      && (Get(r, leaf) == Some(e) <==>
            exists i :: LastHolder(Lookups(t, monthType, angaTypeId, Queries(monthType, month, angas)), leaf, e, i))
  {
    var qs := Queries(monthType, month, angas);
    RelevantFestsIsGather(t, monthType, month, angaTypeId, angas);
    GatherGet(t, monthType, angaTypeId, qs, leaf, e);
  }

  lemma RelevantFestsIsGather(t: Tree, monthType: string, month: real, angaTypeId: string, angas: seq<AngaValue>)
    ensures RelevantFests(Some(t), monthType, month, angaTypeId, angas).value ==
      UpdateAll([], Lookups(t, monthType, angaTypeId, Queries(monthType, month, angas)))
  {
    if |angas| == 0 {
      assert Lookups(t, monthType, angaTypeId, Queries(monthType, month, angas)) == [];
    }
  }

  /** Every rule found at the wildcard month 0 for any of the angas is among the gathered
      ones. */
  lemma RelevantFestsWildcard(t: Tree, monthType: string, month: real, angaTypeId: string,
                              angas: seq<AngaValue>, i: nat, leaf: string)
    requires TreeValid(t) && i < |angas|
    requires Get(MonthAngaFests(Some(t), monthType, 0.0, angaTypeId, angas[i]).value, leaf).Some?
    ensures Get(RelevantFests(Some(t), monthType, month, angaTypeId, angas).value, leaf).Some?
  {
    var qs := Queries(monthType, month, angas);
    QueriesAt(monthType, month, angas, i);
    var ds := Lookups(t, monthType, angaTypeId, qs);
    LookupsAt(t, monthType, angaTypeId, qs, 2 * i + 1);
    assert Get(ds[2 * i + 1], leaf).Some?;
    LookupsValid(t, monthType, angaTypeId, qs);
    UpdateAllHas([], ds, leaf);
  }

  /** Every rule found at the month in force for an anga is among the gathered ones (or
      replaced by one found later under the same leaf name). */
  lemma RelevantFestsAtMonth(t: Tree, monthType: string, month: real, angaTypeId: string,
                             angas: seq<AngaValue>, i: nat, leaf: string)
    requires TreeValid(t) && i < |angas|
    requires Get(MonthAngaFests(Some(t), monthType, EffectiveMonth(monthType, month, angas[..i + 1]),
                                angaTypeId, angas[i]).value, leaf).Some?
    ensures Get(RelevantFests(Some(t), monthType, month, angaTypeId, angas).value, leaf).Some?
  {
    var qs := Queries(monthType, month, angas);
    QueriesAt(monthType, month, angas, i);
    var ds := Lookups(t, monthType, angaTypeId, qs);
    LookupsAt(t, monthType, angaTypeId, qs, 2 * i);
    assert Get(ds[2 * i], leaf).Some?;
    LookupsValid(t, monthType, angaTypeId, qs);
    UpdateAllHas([], ds, leaf);
  }
}
