/**
  The rule matcher: the first rule whose extension list holds the file's
  extension, compared after lower-casing both sides. Only the extension is
  consulted; a rule's name_contains and name_starts_with lists are never read.
*/
module Rules {
  import opened Wrappers
  import opened Paths
  import opened Config

  /** The lower-cased extension of the file's last path element. */
  function FileExt(filePath: Path): (r: string)
    ensures |r| == |Ext(Base(filePath))|
    ensures r == [] || r[0] == '.'
  {
    var e := Ext(Base(filePath));
    if e == [] then [] else LoweredFirstChar(e); Lower(e)
  }

  /** Some entry of the rule's extension list equals `ext` once lower-cased. */
  predicate ListsExt(rule: Rule, ext: string)
    ensures ListsExt(rule, ext) ==> rule.extensions != []
  {
    exists e :: e in rule.extensions && Lower(e) == ext
  }

  /** The first index at or after `from` whose rule lists `ext`. */
  function FirstListing(ext: string, rules: seq<Rule>, from: nat): (r: Option<nat>)
    requires from <= |rules|
    ensures r.None? <==> forall j :: from <= j < |rules| ==> !ListsExt(rules[j], ext)
    ensures r.Some? ==> from <= r.value < |rules| && ListsExt(rules[r.value], ext)
    ensures r.Some? ==> forall j :: from <= j < r.value ==> !ListsExt(rules[j], ext)
    decreases |rules| - from
  {
    if from == |rules| then None
    else if exists e :: e in rules[from].extensions && Lower(e) == ext then Some(from)
    else FirstListing(ext, rules, from + 1)
  }

  /**
    MatchRule as an index: None when the name has no extension or no rule lists
    it, otherwise the position of the first rule that lists it.
  */
  function MatchIndex(filePath: Path, rules: seq<Rule>): (r: Option<nat>)
    ensures Ext(Base(filePath)) == [] ==> r.None?
    ensures r.None? <==> FileExt(filePath) == [] || forall j :: 0 <= j < |rules| ==> !ListsExt(rules[j], FileExt(filePath))
    ensures r.Some? ==> r.value < |rules| && ListsExt(rules[r.value], FileExt(filePath))
    ensures r.Some? ==> forall j :: 0 <= j < r.value ==> !ListsExt(rules[j], FileExt(filePath))
  {
    var ext := FileExt(filePath);
    if ext == [] then None else FirstListing(ext, rules, 0)
  }

  /** MatchRule: the matched rule itself, or None for Go's nil. */
  function MatchRule(filePath: Path, rules: seq<Rule>): (r: Option<Rule>)
    ensures r.Some? <==> MatchIndex(filePath, rules).Some?
    ensures r.Some? ==> r.value == rules[MatchIndex(filePath, rules).value]
  {
    match MatchIndex(filePath, rules)
    case None => None
    case Some(i) => Some(rules[i])
  }

  /** A rule whose extension list is empty is never returned, whatever its other fields. */
  lemma EmptyExtensionsNeverMatch(filePath: Path, rules: seq<Rule>, i: nat)
    requires i < |rules| && rules[i].extensions == []
    ensures MatchIndex(filePath, rules) != Some(i)
  {
  }

  /** Changing the case of the file's extension never changes the result. */
  lemma ExtensionCaseIgnored(p1: Path, p2: Path, rules: seq<Rule>)
    requires Lower(Ext(Base(p1))) == Lower(Ext(Base(p2)))
    ensures MatchIndex(p1, rules) == MatchIndex(p2, rules)
  {
  }

  /** Two rule lists whose extension entries agree after lower-casing, position by position. */
  ghost predicate SameLoweredExtensions(rules1: seq<Rule>, rules2: seq<Rule>) {
    |rules1| == |rules2| &&
    forall j :: 0 <= j < |rules1| ==>
      |rules1[j].extensions| == |rules2[j].extensions| &&
      forall k :: 0 <= k < |rules1[j].extensions| ==>
        Lower(rules1[j].extensions[k]) == Lower(rules2[j].extensions[k])
  }

  lemma ListsExtCaseIgnored(r1: Rule, r2: Rule, ext: string)
    requires |r1.extensions| == |r2.extensions|
    requires forall k :: 0 <= k < |r1.extensions| ==> Lower(r1.extensions[k]) == Lower(r2.extensions[k])
    ensures ListsExt(r1, ext) <==> ListsExt(r2, ext)
  {
    if ListsExt(r1, ext) {
      var e :| e in r1.extensions && Lower(e) == ext;
      var k :| 0 <= k < |r1.extensions| && r1.extensions[k] == e;
      assert r2.extensions[k] in r2.extensions;
    }
    if ListsExt(r2, ext) {
      var e :| e in r2.extensions && Lower(e) == ext;
      var k :| 0 <= k < |r2.extensions| && r2.extensions[k] == e;
      assert r1.extensions[k] in r1.extensions;
    }
  }

  lemma {:induction false} FirstListingCaseIgnored(ext: string, rules1: seq<Rule>, rules2: seq<Rule>, from: nat)
    requires SameLoweredExtensions(rules1, rules2) && from <= |rules1|
    ensures FirstListing(ext, rules1, from) == FirstListing(ext, rules2, from)
    decreases |rules1| - from
  {
    if from < |rules1| {
      ListsExtCaseIgnored(rules1[from], rules2[from], ext);
      FirstListingCaseIgnored(ext, rules1, rules2, from + 1);
    }
  }

  /** Changing the case of the rules' extension entries never changes which position matches. */
  lemma RuleCaseIgnored(filePath: Path, rules1: seq<Rule>, rules2: seq<Rule>)
    requires SameLoweredExtensions(rules1, rules2)
    ensures MatchIndex(filePath, rules1) == MatchIndex(filePath, rules2)
  {
    FirstListingCaseIgnored(FileExt(filePath), rules1, rules2, 0);
  }

  /** Rules after the matched one, whether appended or changed, do not change the result. */
  lemma LaterRulesIrrelevant(filePath: Path, rules1: seq<Rule>, rules2: seq<Rule>, k: nat)
    requires MatchIndex(filePath, rules1) == Some(k)
    requires k < |rules2| && rules1[..k + 1] == rules2[..k + 1]
    ensures MatchIndex(filePath, rules2) == Some(k)
  {
    var ext := FileExt(filePath);
    assert MatchIndex(filePath, rules1) == FirstListing(ext, rules1, 0);
    FirstListingSharedPrefix(ext, rules1, rules2, k, 0);
    assert MatchIndex(filePath, rules2) == FirstListing(ext, rules2, 0);
  }

  lemma {:induction false} FirstListingSharedPrefix(ext: string, rules1: seq<Rule>, rules2: seq<Rule>, k: nat, from: nat)
    requires from <= k < |rules1| && k < |rules2| && rules1[..k + 1] == rules2[..k + 1]
    requires FirstListing(ext, rules1, from) == Some(k)
    ensures FirstListing(ext, rules2, from) == Some(k)
    decreases k - from
  {
    assert rules2[from] == rules2[..k + 1][from] == rules1[..k + 1][from] == rules1[from];
    if from < k && !(exists e :: e in rules1[from].extensions && Lower(e) == ext) {
      FirstListingSharedPrefix(ext, rules1, rules2, k, from + 1);
    }
  }

  /** A lower-cased name that starts with a dot still starts with one, and only then. */
  lemma LoweredFirstChar(s: string)
    requires s != []
    ensures Lower(s)[0] == '.' <==> s[0] == '.'
  {
    assert Lower(s)[0] == LowerChar(s[0]);
  }

  /** An entry written without its leading dot, such as "pdf", never matches anything. */
  lemma DotlessEntryNeverMatches(filePath: Path, rules: seq<Rule>, i: nat)
    requires i < |rules|
    requires forall e :: e in rules[i].extensions ==> e == [] || e[0] != '.'
    ensures MatchIndex(filePath, rules) != Some(i)
  {
    var raw := Ext(Base(filePath));
    var ext := FileExt(filePath);
    if raw != [] {
      LoweredFirstChar(raw);
      forall e | e in rules[i].extensions ensures Lower(e) != ext {
        if e != [] { LoweredFirstChar(e); }
      }
      assert !ListsExt(rules[i], ext);
    }
  }

  /** Only the last element counts, and its extension is the part from its last dot. */
  lemma DoubleExtensionMatchesLastPart()
    ensures MatchIndex("x/a.tar.gz", [Rule("archives", [".GZ"], [], [], "/dest", "rename")]) == Some(0)
  {
    var p: Path := "x/a.tar.gz";
    AfterLastSlashAfterSeparator("x", "a.tar.gz");
    assert p == "x" + "/" + "a.tar.gz";
    assert Base(p) == "a.tar.gz";
    ExtOfTarGz();
    AfterLastSlashOfSlashFree("a.tar.gz");
    assert Ext("a.tar.gz") == ".gz";
    LowerGz();
    var r := Rule("archives", [".GZ"], [], [], "/dest", "rename");
    assert ".GZ" in r.extensions;
    assert ListsExt(r, ".gz");
  }

  lemma ExtOfTarGz()
    ensures ExtOf("a.tar.gz") == ".gz"
  {
    ExtOfAppendDot("a.tar");
    ExtOfAppendChar("a.tar.", 'g');
    ExtOfAppendChar("a.tar.g", 'z');
    assert "a.tar" + "." == "a.tar.";
    assert "a.tar." + ['g'] == "a.tar.g";
    assert "a.tar.g" + ['z'] == "a.tar.gz";
  }

  lemma LowerGz()
    ensures Lower(".GZ") == ".gz"
  {
    var l := Lower(".GZ");
    assert l[0] == '.' && l[1] == 'g' && l[2] == 'z';
  }

  /** A name whose last element has no dot never matches, even under a dotted directory. */
  lemma DottedDirectoryNoExtension(rules: seq<Rule>)
    ensures MatchIndex("x.gz/archive", rules) == None
  {
    AfterLastSlashAfterSeparator("x.gz", "archive");
    assert "x.gz/archive" == "x.gz" + "/" + "archive";
    AfterLastSlashOfSlashFree("archive");
    assert '.' !in "archive";
  }
}
