/**
 * Ingestion in processor.py: rule extraction, reference extraction and the
 * scan that feeds every text file of a directory through both and then runs
 * one resolution pass over the store.
 */
module Processor {
  import opened Wrappers
  import opened Text
  import opened Lexicon
  import opened Database

  // ---------------------------------------------------------------- rules

  /** Does `s` contain one of the phrases? */
  predicate HasAny(s: string, phrases: seq<string>) {
    exists k :: k in phrases && Contains(s, k)
  }

  /**
   * The classification of one stripped line: prohibition phrases are tested
   * first, then obligation phrases, both as substrings of the lower-cased line.
   */
  function ClassifyLine(line: string): (r: Option<RuleType>)
    ensures r.Some? <==> HasAny(Lower(line), PROHIBITION_KEYWORDS) || HasAny(Lower(line), OBLIGATION_KEYWORDS)
    ensures r == Some(Obligation) ==> !HasAny(Lower(line), PROHIBITION_KEYWORDS)
    ensures HasAny(Lower(line), PROHIBITION_KEYWORDS) ==> r == Some(Prohibition)
  {
    var lower := Lower(line);
    if HasAny(lower, PROHIBITION_KEYWORDS) then Some(Prohibition)
    else if HasAny(lower, OBLIGATION_KEYWORDS) then Some(Obligation)
    else None
  }

  /** A blank line is never a rule, so skipping blank lines first changes nothing. */
  lemma BlankLineIsNoRule()
    ensures ClassifyLine("").None?
  {
    assert forall k :: k in PROHIBITION_KEYWORDS + OBLIGATION_KEYWORDS ==> k != [];
  }

  /** A line holding both kinds of phrase is a prohibition. */
  lemma ProhibitionWins(line: string)
    requires HasAny(Lower(line), OBLIGATION_KEYWORDS) && HasAny(Lower(line), PROHIBITION_KEYWORDS)
    ensures ClassifyLine(line) == Some(Prohibition)
  {
  }

  /** The rule a raw line yields: its stripped text with its type, or nothing. */
  function LineRule(line: string): seq<(string, RuleType)> {
    var s := Strip(line);
    if s == [] then []
    else match ClassifyLine(s)
      case Some(ty) => [(s, ty)]
      case None => []
  }

  /** What `f` yields for each line, concatenated in line order. */
  function Collect<T>(lines: seq<string>, f: string -> seq<T>): seq<T>
    decreases |lines|
  {
    if lines == [] then [] else Collect(lines[..|lines| - 1], f) + f(lines[|lines| - 1])
  }

  /** Indices of the lines for which `f` yields something, in increasing order. */
  function HitLines<T>(lines: seq<string>, f: string -> seq<T>): seq<nat>
    decreases |lines|
  {
    if lines == [] then []
    else
      var n := |lines| - 1;
      HitLines(lines[..n], f) + (if f(lines[n]) != [] then [n] else [])
  }

  lemma CollectStep<T>(lines: seq<string>, f: string -> seq<T>, k: nat)
    requires k < |lines|
    ensures Collect(lines[..k + 1], f) == Collect(lines[..k], f) + f(lines[k])
  {
    assert lines[..k + 1][..k] == lines[..k];
  }

  lemma {:induction false} HitLinesBound<T>(lines: seq<string>, f: string -> seq<T>)
    ensures forall i :: 0 <= i < |HitLines(lines, f)| ==> HitLines(lines, f)[i] < |lines|
    decreases |lines|
  {
    if lines != [] {
      HitLinesBound(lines[..|lines| - 1], f);
    }
  }

  /**
   * When `f` yields at most one item per line, the collection has exactly one
   * item per hit line, in line order, and it is what `f` yields for that line.
   */
  lemma {:induction false} CollectInOrder<T>(lines: seq<string>, f: string -> seq<T>)
    requires forall l :: |f(l)| <= 1
    ensures |HitLines(lines, f)| == |Collect(lines, f)|
    ensures forall i :: 0 <= i < |HitLines(lines, f)| ==>
              && HitLines(lines, f)[i] < |lines|
              && f(lines[HitLines(lines, f)[i]]) == [Collect(lines, f)[i]]
    ensures forall i, j :: 0 <= i < j < |HitLines(lines, f)| ==> HitLines(lines, f)[i] < HitLines(lines, f)[j]
    decreases |lines|
  {
    if lines != [] {
      var n := |lines| - 1;
      var init := lines[..n];
      CollectInOrder(init, f);
      var ix := HitLines(init, f);
      assert forall i :: 0 <= i < |ix| ==> lines[ix[i]] == init[ix[i]];
      assert |f(lines[n])| <= 1;
    }
  }

  /** The hit lines are exactly the lines for which `f` yields something. */
  lemma {:induction false} HitLinesComplete<T>(lines: seq<string>, f: string -> seq<T>)
    ensures forall j :: 0 <= j < |lines| ==> (j in HitLines(lines, f) <==> f(lines[j]) != [])
    decreases |lines|
  {
    if lines != [] {
      var n := |lines| - 1;
      var init := lines[..n];
      HitLinesComplete(init, f);
      HitLinesBound(init, f);
      assert forall j :: 0 <= j < n ==> init[j] == lines[j];
    }
  }

  /** A line yields a rule exactly when stripped it is non-blank and classified, and the rule is the stripped line with its type. */
  lemma LineRuleSpec(line: string)
    ensures |LineRule(line)| <= 1
    ensures LineRule(line) != [] <==> Strip(line) != [] && ClassifyLine(Strip(line)).Some?
    ensures LineRule(line) != [] ==>
              LineRule(line)[0].0 == Strip(line) && ClassifyLine(Strip(line)) == Some(LineRule(line)[0].1)
  {
  }

  /** What `extract_rules_from_text` hands to the store, as (text, type) pairs. */
  function ExtractRules(text: string): seq<(string, RuleType)> {
    Collect(Split(text, '\n'), LineRule)
  }

  /**
   * Rule extraction yields one rule per qualifying line, in line order; the
   * rule text is the stripped line verbatim and its type is the line's class.
   */
  lemma ExtractRulesInLineOrder(lines: seq<string>)
    ensures var ix, rs := HitLines(lines, LineRule), Collect(lines, LineRule);
            && |ix| == |rs|
            && (forall i :: 0 <= i < |ix| ==>
                  && ix[i] < |lines|
                  && rs[i].0 == Strip(lines[ix[i]])
                  && ClassifyLine(rs[i].0) == Some(rs[i].1))
            && (forall i, j :: 0 <= i < j < |ix| ==> ix[i] < ix[j])
  {
    forall l ensures |LineRule(l)| <= 1 {
      LineRuleSpec(l);
    }
    CollectInOrder(lines, LineRule);
    var ix, rs := HitLines(lines, LineRule), Collect(lines, LineRule);
    forall i | 0 <= i < |ix|
      ensures rs[i].0 == Strip(lines[ix[i]]) && ClassifyLine(rs[i].0) == Some(rs[i].1)
    {
      LineRuleSpec(lines[ix[i]]);
    }
  }

  /** The lines that yield rules are exactly the non-blank lines containing a phrase. */
  lemma ExtractRulesComplete(lines: seq<string>)
    ensures forall j :: 0 <= j < |lines| ==>
              (j in HitLines(lines, LineRule) <==> Strip(lines[j]) != [] && ClassifyLine(Strip(lines[j])).Some?)
  {
    HitLinesComplete(lines, LineRule);
    forall j | 0 <= j < |lines|
      ensures LineRule(lines[j]) != [] <==> Strip(lines[j]) != [] && ClassifyLine(Strip(lines[j])).Some?
    {
      LineRuleSpec(lines[j]);
    }
  }

  /** The store rows for a document's rules. */
  function RuleRows(docId: nat, rs: seq<(string, RuleType)>): (r: seq<RuleRow>)
    ensures |r| == |rs|
    ensures forall i :: 0 <= i < |rs| ==> r[i] == RuleRow(docId, rs[i].0, rs[i].1)
  {
    seq(|rs|, i requires 0 <= i < |rs| => RuleRow(docId, rs[i].0, rs[i].1))
  }

  /** The rows for one more line's rule go at the end. */
  lemma RuleRowsStep(docId: nat, rs: seq<(string, RuleType)>, line: string)
    requires |LineRule(line)| <= 1
    ensures RuleRows(docId, rs + LineRule(line)) == RuleRows(docId, rs)
              + (if LineRule(line) == [] then [] else [RuleRow(docId, LineRule(line)[0].0, LineRule(line)[0].1)])
  {
  }

  /** `extract_rules_from_text`: one `add_rule` per qualifying line. */
  method ExtractRulesFromText(store: DocStore, docId: nat, text: string)
    requires store.Valid()
    modifies store
    ensures store.Valid()
    ensures store.docs == old(store.docs) && store.deps == old(store.deps) && store.nextId == old(store.nextId)
    ensures store.rules == old(store.rules) + RuleRows(docId, ExtractRules(text))
  {
    var lines := Split(text, '\n');
    for k := 0 to |lines|
      invariant store.Valid()
      invariant store.docs == old(store.docs) && store.deps == old(store.deps) && store.nextId == old(store.nextId)
      invariant store.rules == old(store.rules) + RuleRows(docId, Collect(lines[..k], LineRule))
    {
      CollectStep(lines, LineRule, k);
      LineRuleSpec(lines[k]);
      RuleRowsStep(docId, Collect(lines[..k], LineRule), lines[k]);
      var line := Strip(lines[k]);
      if line == [] {
        continue;
      }
      var ruleType := ClassifyLine(line);
      if ruleType.Some? {
        store.AddRule(docId, line, ruleType.value);
      }
    }
    assert lines[..|lines|] == lines;
  }

  // ----------------------------------------------------------- references

  /** The four citation conventions of the pattern list, in its order. */
  datatype CitationPattern = Law | SupremeDecree | MinisterialResolution | LegislativeDecree

  const DEP_PATTERNS: seq<CitationPattern> := [Law, SupremeDecree, MinisterialResolution, LegislativeDecree]

  /**
   * The regular-expression engine: `findAll(p, text)` stands for
   * `re.findall(pattern_p, text, re.IGNORECASE)`, the matched strings in order.
   */
  type Matcher = (CitationPattern, string) -> seq<string>

  /** Every match of every pattern among `patterns`, pattern by pattern. */
  function AllMatches(findAll: Matcher, patterns: seq<CitationPattern>, text: string): seq<string>
    decreases |patterns|
  {
    if patterns == [] then []
    else AllMatches(findAll, patterns[..|patterns| - 1], text) + findAll(patterns[|patterns| - 1], text)
  }

  /** The set `found_refs`: the distinct matched strings. */
  function FoundRefs(findAll: Matcher, text: string): (r: set<string>)
    ensures forall m :: m in r <==> exists p :: p in DEP_PATTERNS && m in findAll(p, text)
  {
    AllMatchesMembers(findAll, DEP_PATTERNS, text);
    set m | m in AllMatches(findAll, DEP_PATTERNS, text)
  }

  lemma {:induction false} AllMatchesMembers(findAll: Matcher, patterns: seq<CitationPattern>, text: string)
    ensures forall m :: m in AllMatches(findAll, patterns, text) <==> exists p :: p in patterns && m in findAll(p, text)
    decreases |patterns|
  {
    if patterns != [] {
      var init := patterns[..|patterns| - 1];
      AllMatchesMembers(findAll, init, text);
      assert patterns == init + [patterns[|patterns| - 1]];
    }
  }

  /** The first loop of `extract_dependencies_from_text`: gather every match into a set. */
  method CollectRefs(findAll: Matcher, text: string) returns (found: set<string>)
    ensures found == FoundRefs(findAll, text)
  {
    found := {};
    for p := 0 to |DEP_PATTERNS|
      invariant found == set m | m in AllMatches(findAll, DEP_PATTERNS[..p], text)
    {
      assert DEP_PATTERNS[..p + 1][..p] == DEP_PATTERNS[..p];
      var matches := findAll(DEP_PATTERNS[p], text);
      for k := 0 to |matches|
        invariant found == (set m | m in AllMatches(findAll, DEP_PATTERNS[..p], text)) + (set m | m in matches[..k])
      {
        assert matches[..k + 1] == matches[..k] + [matches[k]];
        found := found + {matches[k]};
      }
      assert matches[..|matches|] == matches;
    }
    assert DEP_PATTERNS[..|DEP_PATTERNS|] == DEP_PATTERNS;
  }

  /** The citations of `text` that `docId` did not already have on record. */
  function NewRefs(deps: seq<Dependency>, docId: nat, refs: set<string>): set<string> {
    set r | r in refs && !HasDependency(deps, docId, r)
  }

  /**
   * `deps` is `base` with one Pending, parentless row for `docId` appended
   * for every citation in `done` that `docId` did not have on record:
   * earlier rows are untouched and no pair is recorded twice.
   */
  ghost predicate RecordsReferences(base: seq<Dependency>, deps: seq<Dependency>, docId: nat, done: set<string>) {
    && |base| <= |deps| && deps[..|base|] == base
    && |deps| == |base| + |NewRefs(base, docId, done)|
    && (forall i :: |base| <= i < |deps| ==>
          deps[i] == Dependency(docId, deps[i].refName, None, Pending) && deps[i].refName in done)
    && (forall c, r :: HasDependency(deps, c, r) <==> HasDependency(base, c, r) || (c == docId && r in done))
  }

  /** One `add_dependency` call extends the record by one citation. */
  lemma RecordsReferencesStep(base: seq<Dependency>, deps: seq<Dependency>, deps': seq<Dependency>, docId: nat, done: set<string>, r: string)
    requires RecordsReferences(base, deps, docId, done)
    requires r !in done
    requires if HasDependency(deps, docId, r) then deps' == deps else deps' == deps + [Dependency(docId, r, None, Pending)]
    ensures RecordsReferences(base, deps', docId, done + {r})
  {
    var x := Dependency(docId, r, None, Pending);
    HasDependencySnoc(deps, x);
    if HasDependency(base, docId, r) {
      assert NewRefs(base, docId, done + {r}) == NewRefs(base, docId, done);
    } else {
      assert NewRefs(base, docId, done + {r}) == NewRefs(base, docId, done) + {r};
      assert deps' == deps + [x];
      assert deps'[..|base|] == deps[..|base|];
    }
  }

  /**
   * `extract_dependencies_from_text`: every distinct citation found in the
   * text is recorded once for `docId`; earlier rows are kept as they are.
   * Python visits the set in an unspecified order, so the new rows may come in any order.
   */
  method ExtractDependenciesFromText(store: DocStore, findAll: Matcher, docId: nat, text: string)
    requires store.Valid()
    modifies store
    ensures store.Valid()
    ensures store.docs == old(store.docs) && store.rules == old(store.rules) && store.nextId == old(store.nextId)
    ensures RecordsReferences(old(store.deps), store.deps, docId, FoundRefs(findAll, text))
  {
    var found := CollectRefs(findAll, text);
    var remaining := found;
    assert NewRefs(store.deps, docId, found - remaining) == {};
    while remaining != {}
      invariant remaining <= found
      invariant store.Valid()
      invariant store.docs == old(store.docs) && store.rules == old(store.rules) && store.nextId == old(store.nextId)
      invariant RecordsReferences(old(store.deps), store.deps, docId, found - remaining)
      decreases |remaining|
    {
      var r :| r in remaining;
      ghost var before := store.deps;
      store.AddDependency(docId, r);
      RecordsReferencesStep(old(store.deps), before, store.deps, docId, found - remaining, r);
      assert (found - remaining) + {r} == found - (remaining - {r});
      remaining := remaining - {r};
    }
    assert found - remaining == found;
  }

  // ----------------------------------------------------------------- scan

  /** Every dependency row and every rule belongs to a stored document. */
  ghost predicate OwnersExist(docs: seq<Doc>, deps: seq<Dependency>, rules: seq<RuleRow>) {
    && (forall i :: 0 <= i < |deps| ==> IsDocId(docs, deps[i].child))
    && (forall i :: 0 <= i < |rules| ==> IsDocId(docs, rules[i].docId))
  }

  /** Owners stay valid while no document id disappears. */
  lemma OwnersKeepIds(docs: seq<Doc>, docs': seq<Doc>, deps: seq<Dependency>, rules: seq<RuleRow>)
    requires OwnersExist(docs, deps, rules)
    requires forall x :: IsDocId(docs, x) ==> IsDocId(docs', x)
    ensures OwnersExist(docs', deps, rules)
  {
  }

  /** Citations recorded for a stored document keep every owner valid. */
  lemma OwnersAddReferences(docs: seq<Doc>, deps: seq<Dependency>, deps': seq<Dependency>, rules: seq<RuleRow>,
                            docId: nat, done: set<string>)
    requires OwnersExist(docs, deps, rules) && IsDocId(docs, docId)
    requires RecordsReferences(deps, deps', docId, done)
    ensures OwnersExist(docs, deps', rules)
  {
    assert forall i :: 0 <= i < |deps| ==> deps'[i] == deps[i];
  }

  /** Rules recorded for a stored document keep every owner valid. */
  lemma OwnersAddRules(docs: seq<Doc>, deps: seq<Dependency>, rules: seq<RuleRow>, docId: nat, rs: seq<(string, RuleType)>)
    requires OwnersExist(docs, deps, rules) && IsDocId(docs, docId)
    ensures OwnersExist(docs, deps, rules + RuleRows(docId, rs))
  {
  }

  /** Is `n` the name of a `.txt` entry of the listing? */
  predicate IsTextFile(files: seq<(string, string)>, n: string) {
    exists i :: 0 <= i < |files| && files[i].0 == n && EndsWith(n, ".txt")
  }

  lemma IsTextFileSnoc(files: seq<(string, string)>, k: nat)
    requires k < |files|
    ensures forall n :: IsTextFile(files[..k + 1], n) <==>
              IsTextFile(files[..k], n) || (n == files[k].0 && EndsWith(n, ".txt"))
  {
    forall n | IsTextFile(files[..k + 1], n)
      ensures IsTextFile(files[..k], n) || (n == files[k].0 && EndsWith(n, ".txt"))
    {
      var i :| 0 <= i < k + 1 && files[..k + 1][i].0 == n && EndsWith(n, ".txt");
      if i < k {
        assert files[..k][i] == files[i];
      }
    }
    forall n | IsTextFile(files[..k], n)
      ensures IsTextFile(files[..k + 1], n)
    {
      var i :| 0 <= i < k && files[..k][i].0 == n && EndsWith(n, ".txt");
      assert files[..k + 1][i] == files[i];
    }
    assert files[..k + 1][k] == files[k];
  }

  /**
   * The body of `scan_directory` for one text file: the document is stored,
   * then its citations and its rules are recorded under its id.
   */
  method IndexFile(store: DocStore, findAll: Matcher, filename: string, content: string) returns (docId: nat)
    requires store.Valid() && OwnersExist(store.docs, store.deps, store.rules)
    modifies store
    ensures store.Valid() && OwnersExist(store.docs, store.deps, store.rules)
    ensures store.docs == UpsertDocs(old(store.docs), old(store.nextId), filename, content)
    ensures store.nextId == UpsertNextId(old(store.docs), old(store.nextId), filename)
    ensures forall n :: HasName(store.docs, n) <==> HasName(old(store.docs), n) || n == filename
    ensures FindByName(store.docs, filename).Some?
    ensures store.docs[FindByName(store.docs, filename).value] == Doc(docId, filename, content)
    ensures docId == IdOf(store.docs, filename)
    ensures RecordsReferences(old(store.deps), store.deps, docId, FoundRefs(findAll, content))
    ensures store.rules == old(store.rules) + RuleRows(docId, ExtractRules(content))
  {
    ghost var docs0, next0, deps0, rules0 := store.docs, store.nextId, store.deps, store.rules;
    docId := store.AddDocument(filename, content);
    assert store.docs == UpsertDocs(docs0, next0, filename, content);
    UpsertFinds(docs0, next0, filename, content);
    OwnersKeepIds(docs0, store.docs, deps0, rules0);
    ExtractDependenciesFromText(store, findAll, docId, content);
    OwnersAddReferences(store.docs, deps0, store.deps, rules0, docId, FoundRefs(findAll, content));
    ExtractRulesFromText(store, docId, content);
    OwnersAddRules(store.docs, store.deps, rules0, docId, ExtractRules(content));
  }

  /** The `docs` table and the counter after storing every `.txt` entry of the listing, in listing order. */
  function ScanDocs(docs: seq<Doc>, nextId: nat, files: seq<(string, string)>): (seq<Doc>, nat)
    decreases |files|
  {
    if files == [] then (docs, nextId)
    else
      var before := ScanDocs(docs, nextId, files[..|files| - 1]);
      var (name, content) := files[|files| - 1];
      if EndsWith(name, ".txt") then (UpsertDocs(before.0, before.1, name, content), UpsertNextId(before.0, before.1, name))
      else before
  }

  /** The content of the last `.txt` entry of the listing called `n`, if any. */
  function LastContent(files: seq<(string, string)>, n: string): Option<string>
    decreases |files|
  {
    if files == [] then None
    else if files[|files| - 1].0 == n && EndsWith(n, ".txt") then Some(files[|files| - 1].1)
    else LastContent(files[..|files| - 1], n)
  }

  /**
   * After the scan, a document named in the listing holds the content of the
   * last `.txt` entry with that name; any other document is found where it
   * was, unchanged. All earlier documents keep their ids.
   */
  lemma {:induction false} ScanDocsContent(docs: seq<Doc>, nextId: nat, files: seq<(string, string)>, n: string)
    ensures var d := ScanDocs(docs, nextId, files).0;
            match LastContent(files, n)
            case Some(c) => FindByName(d, n).Some? && d[FindByName(d, n).value].content == c
            case None => FindByName(d, n) == FindByName(docs, n)
                         && (FindByName(docs, n).Some? ==> d[FindByName(docs, n).value] == docs[FindByName(docs, n).value])
    ensures HasName(docs, n) ==> IdOf(ScanDocs(docs, nextId, files).0, n) == IdOf(docs, n)
    decreases |files|
  {
    if files != [] {
      var init := files[..|files| - 1];
      ScanDocsContent(docs, nextId, init, n);
      var before := ScanDocs(docs, nextId, init);
      var (name, content) := files[|files| - 1];
      if EndsWith(name, ".txt") {
        if name == n {
          UpsertFinds(before.0, before.1, name, content);
        } else {
          UpsertKeepsOthers(before.0, before.1, name, content, n);
        }
        if HasName(docs, n) {
          assert FindByName(before.0, n).Some? by {
            match LastContent(init, n)
            case Some(_) =>
            case None =>
          }
          UpsertKeepsId(before.0, before.1, name, content, n);
        }
      }
    }
  }

  /** The rule rows added by the scan: each `.txt` entry's rules, under the id of its name in `docs`. */
  function ScanRules(files: seq<(string, string)>, docs: seq<Doc>): seq<RuleRow>
    decreases |files|
  {
    if files == [] then []
    else
      var (name, content) := files[|files| - 1];
      ScanRules(files[..|files| - 1], docs) + (if EndsWith(name, ".txt") then RuleRows(IdOf(docs, name), ExtractRules(content)) else [])
  }

  /** The rows only depend on the ids of the listed names. */
  lemma {:induction false} ScanRulesSameIds(files: seq<(string, string)>, docs: seq<Doc>, docs': seq<Doc>)
    requires forall n :: IsTextFile(files, n) ==> IdOf(docs', n) == IdOf(docs, n)
    ensures ScanRules(files, docs') == ScanRules(files, docs)
    decreases |files|
  {
    if files != [] {
      var k := |files| - 1;
      IsTextFileSnoc(files, k);
      assert files[..k + 1] == files;
      ScanRulesSameIds(files[..k], docs, docs');
    }
  }

  /** Did the scan find citation `r` in a `.txt` entry stored as document `c`? */
  ghost predicate ScanCites(files: seq<(string, string)>, docs: seq<Doc>, findAll: Matcher, c: nat, r: string) {
    exists k :: 0 <= k < |files| && EndsWith(files[k].0, ".txt") && c == IdOf(docs, files[k].0) && r in FoundRefs(findAll, files[k].1)
  }

  /** The documents after the first entries of the listing have been indexed. */
  ghost predicate DocsIndexed(files: seq<(string, string)>, docs0: seq<Doc>, next0: nat, docs: seq<Doc>, nextId: nat) {
    && (docs, nextId) == ScanDocs(docs0, next0, files)
    && (forall n :: HasName(docs, n) <==> HasName(docs0, n) || IsTextFile(files, n))
  }

  /** The rules after the first entries of the listing have been indexed. */
  ghost predicate RulesIndexed(files: seq<(string, string)>, rules0: seq<RuleRow>, docs: seq<Doc>, rules: seq<RuleRow>) {
    rules == rules0 + ScanRules(files, docs)
  }

  /** The dependency rows after the first entries of the listing have been indexed. */
  ghost predicate DepsIndexed(files: seq<(string, string)>, findAll: Matcher, deps0: seq<Dependency>, docs: seq<Doc>, deps: seq<Dependency>) {
    && |deps0| <= |deps| && deps[..|deps0|] == deps0
    && (forall i :: |deps0| <= i < |deps| ==> deps[i] == Dependency(deps[i].child, deps[i].refName, None, Pending))
    && (forall c, r :: HasDependency(deps, c, r) <==> HasDependency(deps0, c, r) || ScanCites(files, docs, findAll, c, r))
  }

  /** The citations found by the scan after one more `.txt` entry, stored as `docId`. */
  lemma ScanCitesStep(files: seq<(string, string)>, k: nat, findAll: Matcher, docs: seq<Doc>, docs': seq<Doc>, docId: nat)
    requires k < |files| && EndsWith(files[k].0, ".txt")
    requires forall n :: IsTextFile(files[..k], n) ==> IdOf(docs', n) == IdOf(docs, n)
    requires docId == IdOf(docs', files[k].0)
    ensures forall c, r :: ScanCites(files[..k + 1], docs', findAll, c, r) <==>
              ScanCites(files[..k], docs, findAll, c, r) || (c == docId && r in FoundRefs(findAll, files[k].1))
  {
    var pre := files[..k];
    assert files[..k + 1][k] == files[k];
    forall c, r ensures ScanCites(files[..k + 1], docs', findAll, c, r) <==>
                        ScanCites(pre, docs, findAll, c, r) || (c == docId && r in FoundRefs(findAll, files[k].1))
    {
      if ScanCites(files[..k + 1], docs', findAll, c, r) {
        var j :| 0 <= j < k + 1 && EndsWith(files[..k + 1][j].0, ".txt") && c == IdOf(docs', files[..k + 1][j].0)
                 && r in FoundRefs(findAll, files[..k + 1][j].1);
        if j < k {
          assert files[..k + 1][j] == pre[j];
          assert IsTextFile(pre, pre[j].0);
        }
      }
      if ScanCites(pre, docs, findAll, c, r) {
        var j :| 0 <= j < k && EndsWith(pre[j].0, ".txt") && c == IdOf(docs, pre[j].0) && r in FoundRefs(findAll, pre[j].1);
        assert IsTextFile(pre, pre[j].0);
        assert files[..k + 1][j] == pre[j];
      }
    }
  }

  /** The rows recorded for one more document sit after the older ones and are pending. */
  lemma RecordsExtend(deps0: seq<Dependency>, deps: seq<Dependency>, deps': seq<Dependency>, docId: nat, done: set<string>)
    requires |deps0| <= |deps| && deps[..|deps0|] == deps0
    requires forall i :: |deps0| <= i < |deps| ==> deps[i] == Dependency(deps[i].child, deps[i].refName, None, Pending)
    requires RecordsReferences(deps, deps', docId, done)
    ensures |deps0| <= |deps'| && deps'[..|deps0|] == deps0
    ensures forall i :: |deps0| <= i < |deps'| ==> deps'[i] == Dependency(deps'[i].child, deps'[i].refName, None, Pending)
  {
    assert deps'[..|deps0|] == deps'[..|deps|][..|deps0|];
    forall i | |deps0| <= i < |deps| ensures deps'[i] == deps[i] {
      assert deps'[i] == deps'[..|deps|][i];
    }
  }

  /** Storing one more `.txt` entry. */
  lemma DocsIndexedStep(files: seq<(string, string)>, k: nat, docs0: seq<Doc>, next0: nat,
                        docs: seq<Doc>, nextId: nat, docs': seq<Doc>, nextId': nat)
    requires k < |files| && EndsWith(files[k].0, ".txt")
    requires DocsIndexed(files[..k], docs0, next0, docs, nextId)
    requires docs' == UpsertDocs(docs, nextId, files[k].0, files[k].1) && nextId' == UpsertNextId(docs, nextId, files[k].0)
    requires forall n :: HasName(docs', n) <==> HasName(docs, n) || n == files[k].0
    ensures DocsIndexed(files[..k + 1], docs0, next0, docs', nextId')
    ensures forall n :: IsTextFile(files[..k], n) ==> IdOf(docs', n) == IdOf(docs, n)
  {
    assert files[..k + 1][..k] == files[..k] && files[..k + 1][k] == files[k];
    IsTextFileSnoc(files, k);
    forall n | IsTextFile(files[..k], n) ensures IdOf(docs', n) == IdOf(docs, n) {
      UpsertKeepsId(docs, nextId, files[k].0, files[k].1, n);
    }
  }

  /** Recording the rules of one more `.txt` entry. */
  lemma RulesIndexedStep(files: seq<(string, string)>, k: nat, rules0: seq<RuleRow>,
                         docs: seq<Doc>, rules: seq<RuleRow>, docs': seq<Doc>, rules': seq<RuleRow>, docId: nat)
    requires k < |files| && EndsWith(files[k].0, ".txt")
    requires RulesIndexed(files[..k], rules0, docs, rules)
    requires forall n :: IsTextFile(files[..k], n) ==> IdOf(docs', n) == IdOf(docs, n)
    requires docId == IdOf(docs', files[k].0)
    requires rules' == rules + RuleRows(docId, ExtractRules(files[k].1))
    ensures RulesIndexed(files[..k + 1], rules0, docs', rules')
  {
    assert files[..k + 1][..k] == files[..k] && files[..k + 1][k] == files[k];
    ScanRulesSameIds(files[..k], docs, docs');
  }

  /** Recording the citations of one more `.txt` entry. */
  lemma DepsIndexedStep(files: seq<(string, string)>, k: nat, findAll: Matcher, deps0: seq<Dependency>,
                        docs: seq<Doc>, deps: seq<Dependency>, docs': seq<Doc>, deps': seq<Dependency>, docId: nat)
    requires k < |files| && EndsWith(files[k].0, ".txt")
    requires DepsIndexed(files[..k], findAll, deps0, docs, deps)
    requires forall n :: IsTextFile(files[..k], n) ==> IdOf(docs', n) == IdOf(docs, n)
    requires docId == IdOf(docs', files[k].0)
    requires RecordsReferences(deps, deps', docId, FoundRefs(findAll, files[k].1))
    ensures DepsIndexed(files[..k + 1], findAll, deps0, docs', deps')
  {
    ScanCitesStep(files, k, findAll, docs, docs', docId);
    RecordsExtend(deps0, deps, deps', docId, FoundRefs(findAll, files[k].1));
  }

  /** An entry that is not a `.txt` file changes nothing. */
  lemma IndexedSkip(files: seq<(string, string)>, k: nat, findAll: Matcher,
                    docs0: seq<Doc>, next0: nat, deps0: seq<Dependency>, rules0: seq<RuleRow>,
                    docs: seq<Doc>, nextId: nat, deps: seq<Dependency>, rules: seq<RuleRow>)
    requires k < |files| && !EndsWith(files[k].0, ".txt")
    requires DocsIndexed(files[..k], docs0, next0, docs, nextId)
    requires RulesIndexed(files[..k], rules0, docs, rules)
    requires DepsIndexed(files[..k], findAll, deps0, docs, deps)
    ensures DocsIndexed(files[..k + 1], docs0, next0, docs, nextId)
    ensures RulesIndexed(files[..k + 1], rules0, docs, rules)
    ensures DepsIndexed(files[..k + 1], findAll, deps0, docs, deps)
  {
    assert files[..k + 1][..k] == files[..k] && files[..k + 1][k] == files[k];
    IsTextFileSnoc(files, k);
    ScanCitesSkip(files, k, findAll, docs);
  }

  /** The citations found by the scan are unchanged by an entry that is not a `.txt` file. */
  lemma ScanCitesSkip(files: seq<(string, string)>, k: nat, findAll: Matcher, docs: seq<Doc>)
    requires k < |files| && !EndsWith(files[k].0, ".txt")
    ensures forall c, r :: ScanCites(files[..k + 1], docs, findAll, c, r) <==> ScanCites(files[..k], docs, findAll, c, r)
  {
    var pre := files[..k];
    forall c, r ensures ScanCites(files[..k + 1], docs, findAll, c, r) <==> ScanCites(pre, docs, findAll, c, r) {
      if ScanCites(files[..k + 1], docs, findAll, c, r) {
        var j :| 0 <= j < k + 1 && EndsWith(files[..k + 1][j].0, ".txt") && c == IdOf(docs, files[..k + 1][j].0)
                 && r in FoundRefs(findAll, files[..k + 1][j].1);
        assert j != k by { assert files[..k + 1][k] == files[k]; }
        assert pre[j] == files[..k + 1][j];
      }
      if ScanCites(pre, docs, findAll, c, r) {
        var j :| 0 <= j < k && EndsWith(pre[j].0, ".txt") && c == IdOf(docs, pre[j].0) && r in FoundRefs(findAll, pre[j].1);
        assert files[..k + 1][j] == pre[j];
      }
    }
  }

  /**
   * The loop of `scan_directory` over the directory listing, given as
   * (file name, content) pairs: every text file is stored, and its citations
   * and rules are recorded under its id.
   */
  method IndexFiles(store: DocStore, findAll: Matcher, files: seq<(string, string)>)
    requires store.Valid() && OwnersExist(store.docs, store.deps, store.rules)
    modifies store
    ensures store.Valid() && OwnersExist(store.docs, store.deps, store.rules)
    ensures DocsIndexed(files, old(store.docs), old(store.nextId), store.docs, store.nextId)
    ensures RulesIndexed(files, old(store.rules), store.docs, store.rules)
    ensures DepsIndexed(files, findAll, old(store.deps), store.docs, store.deps)
  {
    for k := 0 to |files|
      invariant store.Valid() && OwnersExist(store.docs, store.deps, store.rules)
      invariant DocsIndexed(files[..k], old(store.docs), old(store.nextId), store.docs, store.nextId)
      invariant RulesIndexed(files[..k], old(store.rules), store.docs, store.rules)
      invariant DepsIndexed(files[..k], findAll, old(store.deps), store.docs, store.deps)
    {
      var (filename, content) := files[k];
      if EndsWith(filename, ".txt") {
        ghost var docs, nextId, deps, rules := store.docs, store.nextId, store.deps, store.rules;
        var docId := IndexFile(store, findAll, filename, content);
        DocsIndexedStep(files, k, old(store.docs), old(store.nextId), docs, nextId, store.docs, store.nextId);
        RulesIndexedStep(files, k, old(store.rules), docs, rules, store.docs, store.rules, docId);
        DepsIndexedStep(files, k, findAll, old(store.deps), docs, deps, store.docs, store.deps, docId);
      } else {
        IndexedSkip(files, k, findAll, old(store.docs), old(store.nextId), old(store.deps), old(store.rules),
                    store.docs, store.nextId, store.deps, store.rules);
      }
    }
    assert files[..|files|] == files;
  }

  /**
   * `scan_directory` over the directory listing: the text files are indexed,
   * then one resolution pass runs over all dependency rows, old and new.
   */
  method ScanDirectory(store: DocStore, findAll: Matcher, files: seq<(string, string)>)
    requires store.Valid() && OwnersExist(store.docs, store.deps, store.rules)
    modifies store
    ensures store.Valid() && OwnersExist(store.docs, store.deps, store.rules)
    ensures (store.docs, store.nextId) == ScanDocs(old(store.docs), old(store.nextId), files)
    ensures forall n :: HasName(store.docs, n) <==> HasName(old(store.docs), n) || IsTextFile(files, n)
    ensures store.rules == old(store.rules) + ScanRules(files, store.docs)
    ensures |old(store.deps)| <= |store.deps|
    ensures forall i :: 0 <= i < |old(store.deps)| ==> store.deps[i] == ResolveRow(old(store.deps)[i], DocMap(store.docs))
    ensures forall i :: |old(store.deps)| <= i < |store.deps| ==>
              store.deps[i] == ResolveRow(Dependency(store.deps[i].child, store.deps[i].refName, None, Pending), DocMap(store.docs))
    ensures forall c, r :: HasDependency(store.deps, c, r) <==>
              HasDependency(old(store.deps), c, r) || ScanCites(files, store.docs, findAll, c, r)
    ensures forall i :: 0 <= i < |store.deps| && store.deps[i].parent.None? ==>
              FirstMatch(DocMap(store.docs), CleanRef(store.deps[i].refName)).None?
  {
    IndexFiles(store, findAll, files);
    ghost var deps1 := store.deps;
    store.ResolveDependencies();
    HasDependencySameKeys(deps1, store.deps);
    forall i | 0 <= i < |old(store.deps)| ensures store.deps[i] == ResolveRow(old(store.deps)[i], DocMap(store.docs)) {
      assert deps1[i] == deps1[..|old(store.deps)|][i];
    }
  }
}
