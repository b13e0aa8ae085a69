/** Reading festival rules from their repositories into one collection, and asking that
    collection which rules may apply on a day. */
module RulesCollections {
  import opened Wrappers
  import opened Strings
  import opened OrderedDicts
  import opened FestivalEvents
  import opened RuleTree

  // ---------------------------------------------------------------------------------------
  // Backquoted text

  /** The pieces with every odd-indexed one (the backquoted ones) transliterated. */
  function TransliterateOdd(pieces: seq<string>, tr: string -> string): (r: seq<string>)
    ensures |r| == |pieces|
    ensures forall i :: 0 <= i < |pieces| ==> r[i] == if i % 2 == 1 then tr(pieces[i]) else pieces[i]
  {
    seq(|pieces|, i requires 0 <= i < |pieces| => if i % 2 == 1 then tr(pieces[i]) else pieces[i])
  }

  /** What `transliterate_quoted_text` returns: with matched backquotes, the text around them
      kept and the text between them transliterated, the backquotes dropped; otherwise the text
      itself. */
  function QuotedTransliteration(text: string, tr: string -> string): string {
    var pieces := Split(text, '`');
    if |pieces| > 1 && |pieces| % 2 == 1 then Concat(TransliterateOdd(pieces, tr)) else text
  }

  /** `transliterate_quoted_text`; `tr` is `custom_transliteration.tr` for the target script. */
  method TransliterateQuotedText(text: string, tr: string -> string) returns (transliterated: string)
    ensures transliterated == QuotedTransliteration(text, tr)
  {
    transliterated := text;
    var pieces := Split(transliterated, '`');
    if |pieces| > 1 {
      if |pieces| % 2 == 1 {
        ghost var original := pieces;
        for i := 0 to |pieces|
          invariant |pieces| == |original|
          invariant forall k :: 0 <= k < i ==> pieces[k] == TransliterateOdd(original, tr)[k]
          invariant forall k :: i <= k < |pieces| ==> pieces[k] == original[k]
        {
          if i % 2 == 1 {
            pieces := pieces[i := tr(pieces[i])];
          }
        }
        assert pieces == TransliterateOdd(original, tr);
        transliterated := Concat(pieces);
      }
    }
  }

  /** Text without backquotes is returned unchanged. */
  lemma UnquotedUnchanged(text: string, tr: string -> string)
    requires '`' !in text
    ensures QuotedTransliteration(text, tr) == text
  {
    SplitAbsent(text, '`');
  }

  /** Text with an odd number of backquotes (one unmatched) is returned unchanged. */
  lemma UnmatchedUnchanged(text: string, tr: string -> string)
    requires Count(text, '`') % 2 == 1
    ensures QuotedTransliteration(text, tr) == text
  {
    SplitCount(text, '`');
  }

  lemma ConcatWithout(ps: seq<string>, c: char)
    requires forall i :: 0 <= i < |ps| ==> c !in ps[i]
    ensures c !in Concat(ps)
  {
    if |ps| > 0 {
      ConcatWithout(ps[1..], c);
    }
  }

  /** With matched backquotes and a transliteration that writes none, no backquote is left. */
  lemma MatchedQuotesRemoved(text: string, tr: string -> string)
    requires Count(text, '`') > 0 && Count(text, '`') % 2 == 0
    requires forall s :: '`' !in tr(s)
    ensures '`' !in QuotedTransliteration(text, tr)
  {
    SplitCount(text, '`');
    var pieces := Split(text, '`');
    ConcatWithout(TransliterateOdd(pieces, tr), '`');
  }

  /** With matched backquotes and a transliteration that changes nothing, the result is the
      text with its backquotes removed. */
  lemma MatchedIdentity(text: string, tr: string -> string)
    requires Count(text, '`') > 0 && Count(text, '`') % 2 == 0
    requires forall s :: tr(s) == s
    ensures QuotedTransliteration(text, tr) == ReplaceChar(text, '`', "")
  {
    SplitCount(text, '`');
    var pieces := Split(text, '`');
    assert TransliterateOdd(pieces, tr) == pieces;
    ConcatSplit(text, '`');
  }

  // ---------------------------------------------------------------------------------------
  // Reading one repository

  /** A rule file: its path, and the rule read from it. */
  datatype RuleFile = RuleFile(path: string, event: Event)

  /** The rule of a file, remembering the file and the repository it came from. */
  function Stamped(f: RuleFile, repo: Option<RulesRepo>): Event {
    f.event.(pathActual := Some(f.path), repo := repo)
  }

  /** The dict `get_festival_rules_map` builds from the files (already in sorted order): each
      rule under its id, a later file overwriting an earlier one with the same id. */
  function RulesMapOf(files: seq<RuleFile>, repo: Option<RulesRepo>): Dict<Event> {
    if |files| == 0 then []
    else
      var f := files[|files| - 1];
      Put(RulesMapOf(files[..|files| - 1], repo), f.event.id, Stamped(f, repo))
  }

  /** `get_festival_rules_map`, given the rule files found under the directory. */
  method FestivalRulesMap(files: seq<RuleFile>, repo: Option<RulesRepo>) returns (festivalRules: Dict<Event>)
    ensures festivalRules == RulesMapOf(files, repo)
  {
    festivalRules := [];
    if |files| == 0 {
      return;
    }
    for i := 0 to |files|
      invariant festivalRules == RulesMapOf(files[..i], repo)
    {
      assert files[..i + 1][..i] == files[..i];
      festivalRules := Put(festivalRules, files[i].event.id, Stamped(files[i], repo));
    }
    assert files[..|files|] == files;
  }

  /** `files[i]` is the last file holding a rule with id `id`. */
  ghost predicate LastFileWithId(files: seq<RuleFile>, id: string, i: int) {
    && 0 <= i < |files|
    && files[i].event.id == id
    && forall j :: i < j < |files| ==> files[j].event.id != id
  }

  /** The rules map holds, under an id, the rule of the last file with that id. */
  lemma {:induction false} RulesMapOfLast(files: seq<RuleFile>, repo: Option<RulesRepo>, id: string, i: int)
    requires LastFileWithId(files, id, i)
    ensures Get(RulesMapOf(files, repo), id) == Some(Stamped(files[i], repo))
  {
    if i < |files| - 1 {
      var pre := files[..|files| - 1];
      assert LastFileWithId(pre, id, i);
      RulesMapOfLast(pre, repo, id, i);
    }
  }

  /** The rules map holds nothing under an id no file has. */
  lemma {:induction false} RulesMapOfAbsent(files: seq<RuleFile>, repo: Option<RulesRepo>, id: string)
    requires forall i :: 0 <= i < |files| ==> files[i].event.id != id
    ensures Get(RulesMapOf(files, repo), id).None?
  {
    if |files| > 0 {
      RulesMapOfAbsent(files[..|files| - 1], repo, id);
    }
  }

  /** Every entry of the rules map is a rule of one of the files, under its own id, stamped
      with its file and repository. */
  lemma {:induction false} RulesMapOfEntries(files: seq<RuleFile>, repo: Option<RulesRepo>, k: string, e: Event)
    requires (k, e) in RulesMapOf(files, repo)
    ensures e.id == k && e.repo == repo && e.pathActual.Some?
    ensures exists i :: 0 <= i < |files| && e == Stamped(files[i], repo)
  {
    var pre := files[..|files| - 1];
    var f := files[|files| - 1];
    PutEntries(RulesMapOf(pre, repo), f.event.id, Stamped(f, repo), k, e);
    if (k, e) != (f.event.id, Stamped(f, repo)) {
      RulesMapOfEntries(pre, repo, k, e);
      var i :| 0 <= i < |pre| && e == Stamped(pre[i], repo);
      assert e == Stamped(files[i], repo);
    }
  }

  lemma {:induction false} RulesMapOfValid(files: seq<RuleFile>, repo: Option<RulesRepo>)
    ensures Valid(RulesMapOf(files, repo))
  {
    if |files| > 0 {
      var f := files[|files| - 1];
      RulesMapOfValid(files[..|files| - 1], repo);
      PutValid(RulesMapOf(files[..|files| - 1], repo), f.event.id, Stamped(f, repo));
    }
  }

  // ---------------------------------------------------------------------------------------
  // Reading every repository

  /** The rule files found below each directory, in sorted order. */
  type FileSystem = map<string, seq<RuleFile>>

  /** No files are found below a directory that does not exist. */
  function FilesUnder(fs: FileSystem, dir: string): seq<RuleFile> {
    if dir in fs then fs[dir] else []
  }

  /** The directory a repository's rules are read from, `os.path.join(DATA_ROOT,
      repo.get_path())`. */
  function RepoDir(repo: RulesRepo, dataRoot: string): string {
    PathJoin(dataRoot, GetPath(repo, dataRoot))
  }

  /** The rules of one repository. */
  function RepoRules(fs: FileSystem, repo: RulesRepo, dataRoot: string): Dict<Event> {
    RulesMapOf(FilesUnder(fs, RepoDir(repo, dataRoot)), Some(repo))
  }

  function RepoDicts(fs: FileSystem, repos: seq<RulesRepo>, dataRoot: string): (ds: seq<Dict<Event>>)
    ensures |ds| == |repos|
    ensures forall i :: 0 <= i < |repos| ==> ds[i] == RepoRules(fs, repos[i], dataRoot)
  {
    seq(|repos|, i requires 0 <= i < |repos| => RepoRules(fs, repos[i], dataRoot))
  }

  /** The fields `set_rule_dicts` leaves behind, and what it raised, if anything. */
  datatype LoadState = LoadState(nameToRule: Dict<Event>, tree: Option<Tree>, error: Option<PathError>)

  /** How the tree is rebuilt from the rules gathered so far. */
  type TreeBuilder = seq<Event> -> Result<Tree, PathError>

  /** `set_rule_dicts` over the rules of each repository, `ds`, in order: each is merged in
      and the tree is rebuilt from all rules so far; building can raise, which ends the loop
      with the rules merged but the tree not rebuilt. */
  function LoadWith(build: TreeBuilder, d: Dict<Event>, t: Option<Tree>, ds: seq<Dict<Event>>): LoadState {
    if |ds| == 0 then LoadState(d, t, None)
    else
      var s := LoadWith(build, d, t, ds[..|ds| - 1]);
      if s.error.Some? then s
      else
        var rules := Update(s.nameToRule, ds[|ds| - 1]);
        match build(Values(rules))
        case Failure(err) => LoadState(rules, s.tree, Some(err))
        case Success(tree) => LoadState(rules, Some(tree), None)
  }

  /** `set_rule_dicts` from the given fields, over the repositories' rule files. */
  function Load(d: Dict<Event>, t: Option<Tree>, fs: FileSystem, repos: seq<RulesRepo>, dataRoot: string): LoadState {
    LoadWith(MakeTree, d, t, RepoDicts(fs, repos, dataRoot))
  }

  /** One more repository: nothing happens after an error; otherwise its rules are merged in
      and the tree is rebuilt, or the error is what building it raised. */
  lemma LoadStep(build: TreeBuilder, d: Dict<Event>, t: Option<Tree>, ds: seq<Dict<Event>>)
    requires |ds| > 0
    ensures var p := LoadWith(build, d, t, ds[..|ds| - 1]);
      var s := LoadWith(build, d, t, ds);
      && (p.error.Some? ==> s == p)
      && (p.error.None? ==>
            && s.nameToRule == Update(p.nameToRule, ds[|ds| - 1])
            && (s.error.Some? ==> build(Values(s.nameToRule)) == Failure(s.error.value))
            && (s.error.None? ==> s.tree.Some? && build(Values(s.nameToRule)) == Success(s.tree.value)))
  {
  }

  /** When loading succeeds, the collection holds the repositories' rules merged in order, and
      its tree is the tree of exactly those rules. */
  lemma {:induction false} LoadSucceeded(build: TreeBuilder, d: Dict<Event>, t: Option<Tree>, ds: seq<Dict<Event>>)
    requires LoadWith(build, d, t, ds).error.None?
    ensures var s := LoadWith(build, d, t, ds);
      && s.nameToRule == UpdateAll(d, ds)
      && (|ds| == 0 ==> s.tree == t)
      && (|ds| > 0 ==> s.tree.Some? && build(Values(s.nameToRule)) == Success(s.tree.value))
  {
    if |ds| > 0 {
      LoadStep(build, d, t, ds);
      LoadSucceeded(build, d, t, ds[..|ds| - 1]);
    }
  }

  /** When loading raises, it is because the tree of the rules merged up to and including some
      repository could not be built, and the rules merged are those. */
  lemma LoadFailed(build: TreeBuilder, d: Dict<Event>, t: Option<Tree>, ds: seq<Dict<Event>>)
    returns (i: nat)
    requires LoadWith(build, d, t, ds).error.Some?
    ensures i < |ds|
    ensures var s := LoadWith(build, d, t, ds);
      && s.nameToRule == UpdateAll(d, ds[..i + 1])
      && build(Values(s.nameToRule)) == Failure(s.error.value)
  {
    i := FirstFailure(build, d, t, ds);
    assert ds[..i + 1][..i] == ds[..i];
    LoadFailedLast(build, d, t, ds[..i + 1]);
  }

  /** The first repository whose merge made building the tree raise. */
  lemma FirstFailure(build: TreeBuilder, d: Dict<Event>, t: Option<Tree>, ds: seq<Dict<Event>>)
    returns (i: nat)
    requires LoadWith(build, d, t, ds).error.Some?
    ensures i < |ds|
    ensures LoadWith(build, d, t, ds[..i]).error.None? && LoadWith(build, d, t, ds) == LoadWith(build, d, t, ds[..i + 1])
  {
    assert ds[..|ds|] == ds;
    i := 0;
    while LoadWith(build, d, t, ds[..i + 1]).error.None?
      invariant i < |ds| && LoadWith(build, d, t, ds[..i]).error.None?
      decreases |ds| - i
    {
      i := i + 1;
    }
    LoadStopped(build, d, t, ds, i + 1);
  }

  lemma LoadFailedLast(build: TreeBuilder, d: Dict<Event>, t: Option<Tree>, ds: seq<Dict<Event>>)
    requires |ds| > 0
    requires LoadWith(build, d, t, ds[..|ds| - 1]).error.None? && LoadWith(build, d, t, ds).error.Some?
    ensures var s := LoadWith(build, d, t, ds);
      && s.nameToRule == UpdateAll(d, ds)
      && build(Values(s.nameToRule)) == Failure(s.error.value)
  {
    LoadStep(build, d, t, ds);
    LoadSucceeded(build, d, t, ds[..|ds| - 1]);
  }

  /** Loading one more repository after a prefix that loaded without error. */
  lemma LoadNext(build: TreeBuilder, d: Dict<Event>, t: Option<Tree>, ds: seq<Dict<Event>>, i: nat,
                 rules: Dict<Event>, tree: Option<Tree>, built: Result<Tree, PathError>)
    requires i < |ds| && LoadWith(build, d, t, ds[..i]) == LoadState(rules, tree, None)
    requires built == build(Values(Update(rules, ds[i])))
    ensures LoadWith(build, d, t, ds[..i + 1]) ==
      match built
      case Failure(err) => LoadState(Update(rules, ds[i]), tree, Some(err))
      case Success(tr) => LoadState(Update(rules, ds[i]), Some(tr), None)
  {
    assert ds[..i + 1][..i] == ds[..i];
  }

  /** Once loading has raised, later repositories change nothing. */
  lemma {:induction false} LoadStopped(build: TreeBuilder, d: Dict<Event>, t: Option<Tree>, ds: seq<Dict<Event>>, n: nat)
    requires n <= |ds| && LoadWith(build, d, t, ds[..n]).error.Some?
    ensures LoadWith(build, d, t, ds) == LoadWith(build, d, t, ds[..n])
    decreases |ds| - n
  {
    if n < |ds| {
      assert ds[..n + 1][..n] == ds[..n];
      LoadStopped(build, d, t, ds, n + 1);
    } else {
      assert ds[..n] == ds;
    }
  }

  /** A rule without timing among one repository's rules makes `set_rule_dicts` raise: an
      earlier repository already made it raise, or rebuilding the tree after this one does. */
  lemma LoadRaisesOnNoTiming(d: Dict<Event>, t: Option<Tree>, ds: seq<Dict<Event>>, i: nat, k: string, e: Event)
    requires i < |ds| && Valid(ds[i]) && Get(ds[i], k) == Some(e) && e.timing.None?
    ensures LoadWith(MakeTree, d, t, ds).error.Some?
  {
    var p := LoadWith(MakeTree, d, t, ds[..i]);
    if p.error.Some? {
      LoadStopped(MakeTree, d, t, ds, i);
    } else {
      var rules := Update(p.nameToRule, ds[i]);
      UpdateGet(p.nameToRule, ds[i], k);
      GetInValues(rules, k, e);
      var j :| 0 <= j < |Values(rules)| && Values(rules)[j] == e;
      MakeTreeNoTiming(Values(rules), j);
      LoadNext(MakeTree, d, t, ds, i, p.nameToRule, p.tree, MakeTree(Values(rules)));
      LoadStopped(MakeTree, d, t, ds, i + 1);
    }
  }

  /** Every rule of a dict has a storage path, but for rules without timing. */
  predicate PathsButTiming(d: Dict<Event>) {
    forall j :: 0 <= j < |d| ==> d[j].1.timing.None? || PathParts(d[j].1).Success?
  }

  /** When the rules have storage paths but for some that lack a timing, what `set_rule_dicts`
      raises is the missing timing. */
  lemma LoadRaisesNoTiming(d: Dict<Event>, t: Option<Tree>, ds: seq<Dict<Event>>)
    requires PathsButTiming(d) && forall h :: 0 <= h < |ds| ==> PathsButTiming(ds[h])
    requires LoadWith(MakeTree, d, t, ds).error.Some?
    ensures LoadWith(MakeTree, d, t, ds).error == Some(NoTiming)
  {
    var i := LoadFailed(MakeTree, d, t, ds);
    var rules := UpdateAll(d, ds[..i + 1]);
    var vs := Values(rules);
    forall j | 0 <= j < |vs| ensures vs[j].timing.None? || PathParts(vs[j]).Success? {
      assert rules[j] in rules;
      UpdateAllEntries(d, ds[..i + 1], rules[j].0, rules[j].1);
    }
    MakeTreeOnlyNoTiming(vs);
  }

  /** `set_rule_dicts` over the repositories raises when one of them holds a rule without
      timing. */
  lemma LoadRaisesOnRuleWithoutTiming(d: Dict<Event>, t: Option<Tree>, fs: FileSystem, repos: seq<RulesRepo>,
                                      dataRoot: string, i: nat, k: string, e: Event)
    requires i < |repos| && Get(RepoRules(fs, repos[i], dataRoot), k) == Some(e) && e.timing.None?
    ensures Load(d, t, fs, repos, dataRoot).error.Some?
  {
    RepoDictsValid(fs, repos, dataRoot);
    LoadRaisesOnNoTiming(d, t, RepoDicts(fs, repos, dataRoot), i, k, e);
  }

  lemma RepoDictsValid(fs: FileSystem, repos: seq<RulesRepo>, dataRoot: string)
    ensures forall i :: 0 <= i < |repos| ==> Valid(RepoDicts(fs, repos, dataRoot)[i])
  {
    forall i | 0 <= i < |repos| ensures Valid(RepoDicts(fs, repos, dataRoot)[i]) {
      RulesMapOfValid(FilesUnder(fs, RepoDir(repos[i], dataRoot)), Some(repos[i]));
    }
  }

  /** Across repositories a later one overwrites an earlier one: under an id that one of the
      repositories has, the merged rules hold that of the last repository that has it; under
      any other id, what was there before. */
  lemma MergedRule(d: Dict<Event>, fs: FileSystem, repos: seq<RulesRepo>, dataRoot: string, id: string, e: Event)
    ensures var ds := RepoDicts(fs, repos, dataRoot);
      && ((exists h :: 0 <= h < |repos| && Get(ds[h], id).Some?) ==>
            (Get(UpdateAll(d, ds), id) == Some(e) <==> exists i :: LastHolder(ds, id, e, i)))
      && ((forall h :: 0 <= h < |repos| ==> Get(ds[h], id).None?) ==> Get(UpdateAll(d, ds), id) == Get(d, id))
  {
    var ds := RepoDicts(fs, repos, dataRoot);
    RepoDictsValid(fs, repos, dataRoot);
    if h :| 0 <= h < |repos| && Get(ds[h], id).Some? {
      UpdateAllGet(d, ds, id, e, h);
    } else {
      UpdateAllUntouched(d, ds, id);
    }
  }

  /** Starting from an empty collection, every merged rule sits under its own id and remembers
      a repository it was read from and its file. */
  lemma MergedEntries(fs: FileSystem, repos: seq<RulesRepo>, dataRoot: string, k: string, e: Event)
    requires (k, e) in UpdateAll([], RepoDicts(fs, repos, dataRoot))
    ensures e.id == k && e.pathActual.Some? && e.repo.Some? && e.repo.value in repos
  {
    var ds := RepoDicts(fs, repos, dataRoot);
    UpdateAllEntries([], ds, k, e);
    var i :| 0 <= i < |ds| && (k, e) in ds[i];
    RulesMapOfEntries(FilesUnder(fs, RepoDir(repos[i], dataRoot)), Some(repos[i]), k, e);
  }

  // ---------------------------------------------------------------------------------------
  // The collection

  class RulesCollection {
    var repos: seq<RulesRepo>
    var nameToRule: Dict<Event>
    var tree: Option<Tree>

    /** The fields as `__init__` sets them before reading any rules. */
    constructor (repos: seq<RulesRepo>)
      ensures this.repos == repos && nameToRule == [] && tree == None
    {
      this.repos := repos;
      nameToRule := [];
      tree := None;
    }

    /** `set_rule_dicts`: merges each repository's rules into `name_to_rule` and rebuilds the
        tree after each; returns what was raised, if anything. */
    method SetRuleDicts(fs: FileSystem, dataRoot: string) returns (err: Option<PathError>)
      modifies this
      ensures repos == old(repos)
      ensures LoadState(nameToRule, tree, err) == Load(old(nameToRule), old(tree), fs, repos, dataRoot)
    {
      ghost var d0, t0 := nameToRule, tree;
      ghost var ds := RepoDicts(fs, repos, dataRoot);
      err := None;
      for i := 0 to |repos|
        invariant repos == old(repos)
        invariant LoadWith(MakeTree, d0, t0, ds[..i]) == LoadState(nameToRule, tree, None)
      {
        ghost var before := nameToRule;
        var rules := FestivalRulesMap(FilesUnder(fs, RepoDir(repos[i], dataRoot)), Some(repos[i]));
        nameToRule := Update(nameToRule, rules);
        var built := MakeTree(Values(nameToRule));
        LoadNext(MakeTree, d0, t0, ds, i, before, tree, built);
        if built.Failure? {
          err := Some(built.error);
          LoadStopped(MakeTree, d0, t0, ds, i + 1);
          return;
        }
        tree := Some(built.value);
      }
      assert ds[..|repos|] == ds;
    }

    /** `get_month_anga_fests`. */
    function GetMonthAngaFests(monthType: string, month: real, angaTypeId: string, anga: AngaValue)
      : (r: Result<Dict<Event>, LookupError>)
      reads this
      ensures r.Failure? <==> tree.None?
    {
      MonthAngaFests(tree, monthType, month, angaTypeId, anga)
    }

    /** `get_possibly_relevant_fests`. */
    method GetPossiblyRelevantFests(monthType: string, month: real, angaTypeId: string, angas: seq<AngaValue>)
      returns (r: Result<Dict<Event>, LookupError>)
      ensures r == RelevantFests(tree, monthType, month, angaTypeId, angas)
    {
      var festDict: Dict<Event> := [];
      var m := month;
      ghost var done: seq<Query> := [];
      for i := 0 to |angas|
        invariant m == EffectiveMonth(monthType, month, angas[..i])
        invariant done == Queries(monthType, month, angas[..i])
        invariant tree.None? ==> i == 0 && festDict == []
        invariant tree.Some? ==> festDict == Gather(tree.value, monthType, angaTypeId, done)
      {
        var anga := angas[i];
        QueriesSnoc(monthType, month, angas, i);
        if anga.Tithi? && monthType == LunarMonthDir {
          m := anga.monthIndex;
        }
        ghost var before := festDict;
        var ms := [m, 0.0];
        for j := 0 to |ms|
          invariant tree.None? ==> i == 0 && j == 0
          invariant j == 0 ==> festDict == before
          invariant tree.Some? && j == 1 ==>
            festDict == Update(before, Lookup(tree.value, monthType, angaTypeId, Query(m, anga)))
          invariant tree.Some? && j == 2 ==>
            festDict == Update(Update(before, Lookup(tree.value, monthType, angaTypeId, Query(m, anga))),
                               Lookup(tree.value, monthType, angaTypeId, Query(0.0, anga)))
        {
          var found := GetMonthAngaFests(monthType, ms[j], angaTypeId, anga);
          if found.Failure? {
            assert tree.None? && |angas| > 0;
            return Failure(TreeNotBuilt);
          }
          assert found.value == Lookup(tree.value, monthType, angaTypeId, Query(ms[j], anga));
          festDict := Update(festDict, found.value);
        }
        GatherPair(tree.value, monthType, angaTypeId, done, m, anga);
        done := done + [Query(m, anga), Query(0.0, anga)];
      }
      assert angas[..|angas|] == angas;
      return Success(festDict);
    }
  }

  /** The lookups for one more anga follow those for the angas before it. */
  lemma QueriesSnoc(monthType: string, month: real, angas: seq<AngaValue>, i: nat)
    requires i < |angas|
    ensures Queries(monthType, month, angas[..i + 1]) == Queries(monthType, month, angas[..i]) +
      [Query(EffectiveMonth(monthType, month, angas[..i + 1]), angas[i]), Query(0.0, angas[i])]
    ensures EffectiveMonth(monthType, month, angas[..i + 1]) ==
      if angas[i].Tithi? && monthType == LunarMonthDir then angas[i].monthIndex
      else EffectiveMonth(monthType, month, angas[..i])
  {
    assert angas[..i + 1][..i] == angas[..i];
  }

  /** Gathering the lookups for one more anga merges what they find, in order. */
  lemma GatherPair(t: Tree, monthType: string, angaTypeId: string, qs: seq<Query>, m: real, anga: AngaValue)
    ensures Gather(t, monthType, angaTypeId, qs + [Query(m, anga), Query(0.0, anga)]) ==
      Update(Update(Gather(t, monthType, angaTypeId, qs), Lookup(t, monthType, angaTypeId, Query(m, anga))),
             Lookup(t, monthType, angaTypeId, Query(0.0, anga)))
  {
    GatherSnoc(t, monthType, angaTypeId, qs, Query(m, anga));
    GatherSnoc(t, monthType, angaTypeId, qs + [Query(m, anga)], Query(0.0, anga));
    assert qs + [Query(m, anga)] + [Query(0.0, anga)] == qs + [Query(m, anga), Query(0.0, anga)];
  }

  lemma GatherSnoc(t: Tree, monthType: string, angaTypeId: string, qs: seq<Query>, q: Query)
    ensures Gather(t, monthType, angaTypeId, qs + [q]) ==
      Update(Gather(t, monthType, angaTypeId, qs), Lookup(t, monthType, angaTypeId, q))
  {
    var ds := Lookups(t, monthType, angaTypeId, qs + [q]);
    assert (qs + [q])[..|qs|] == qs;
    assert ds == Lookups(t, monthType, angaTypeId, qs) + [Lookup(t, monthType, angaTypeId, q)];
    UpdateAllSnoc([], Lookups(t, monthType, angaTypeId, qs), Lookup(t, monthType, angaTypeId, q));
  }

  /** `RulesCollection(repos)`: the collection, or what `set_rule_dicts` raised. */
  method NewRulesCollection(repos: seq<RulesRepo>, fs: FileSystem, dataRoot: string)
    returns (r: Result<RulesCollection, PathError>)
    ensures var s := Load([], None, fs, repos, dataRoot);
      && (r.Failure? <==> s.error.Some?)
      && (r.Failure? ==> r.error == s.error.value)
    ensures r.Success? ==>
      && fresh(r.value) && r.value.repos == repos
      && r.value.nameToRule == Load([], None, fs, repos, dataRoot).nameToRule
      && r.value.tree == Load([], None, fs, repos, dataRoot).tree
  {
    var c := new RulesCollection(repos);
    var err := c.SetRuleDicts(fs, dataRoot);
    if err.Some? {
      return Failure(err.value);
    }
    return Success(c);
  }

  /** What a loaded collection's lookup finds is one of its rules, under its own id, and a
      month/anga rule whose fields name the looked-up keys. */
  lemma LoadedLookupSound(fs: FileSystem, repos: seq<RulesRepo>, dataRoot: string, monthType: string,
                          month: real, angaTypeId: string, anga: AngaValue, leaf: string, e: Event)
    requires |repos| > 0
    requires var s := Load([], None, fs, repos, dataRoot);
      s.error.None? && Get(MonthAngaFests(s.tree, monthType, month, angaTypeId, anga).value, leaf) == Some(e)
    ensures var s := Load([], None, fs, repos, dataRoot);
      Get(s.nameToRule, e.id) == Some(e) && e.repo.Some? && e.repo.value in repos
    ensures BranchOf(e) == MonthAnga && e.timing.value.angaNumber == Some(AngaIndex(anga))
  {
    var s := Load([], None, fs, repos, dataRoot);
    LoadSucceeded(MakeTree, [], None, RepoDicts(fs, repos, dataRoot));
    var leaves := Values(s.nameToRule);
    MonthAngaFestsSound(leaves, monthType, month, angaTypeId, anga, leaf, e);
    var i :| 0 <= i < |leaves| && leaves[i] == e;
    var k := s.nameToRule[i].0;
    assert (k, e) in s.nameToRule;
    MergedEntries(fs, repos, dataRoot, k, e);
    RepoDictsValid(fs, repos, dataRoot);
    UpdateAllValid([], RepoDicts(fs, repos, dataRoot));
    GetEntry(s.nameToRule, k, e);
  }
}
