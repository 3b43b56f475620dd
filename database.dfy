/**
 * The document store of database.py as an in-memory state machine. The three
 * SQL tables become three sequences of rows kept in insertion (row id) order;
 * the AUTOINCREMENT counter of the `docs` table is `nextId`.
 */
module Database {
  import opened Wrappers
  import opened Text

  /** A row of the `docs` table. */
  datatype Doc = Doc(id: nat, filename: string, content: string)

  /** The `status` column of the `dependencies` table. */
  datatype DepStatus = Pending | Resolved

  /** A row of the `dependencies` table: the citing document, the citation as found, its resolved target. */
  datatype Dependency = Dependency(child: nat, refName: string, parent: Option<nat>, status: DepStatus)

  /** The `rule_type` column of the `rules` table. */
  datatype RuleType = Obligation | Prohibition

  /** A row of the `rules` table. */
  datatype RuleRow = RuleRow(docId: nat, text: string, ruleType: RuleType)

  /** One entry of the name index built by the resolution pass: normalised file name and document id. */
  type NameEntry = (string, nat)

  /** Position of the document called `filename` (the UNIQUE lookup of the `docs` table). */
  function FindByName(docs: seq<Doc>, filename: string): (r: Option<nat>)
    ensures r.Some? ==> r.value < |docs| && docs[r.value].filename == filename
    ensures r.None? <==> forall i :: 0 <= i < |docs| ==> docs[i].filename != filename
  {
    if docs == [] then None
    else if docs[0].filename == filename then Some(0)
    else match FindByName(docs[1..], filename)
      case Some(k) => Some(k + 1)
      case None => None
  }

  /** Position of the document whose id is `id`. */
  function FindById(docs: seq<Doc>, id: nat): (r: Option<nat>)
    ensures r.Some? ==> r.value < |docs| && docs[r.value].id == id
    ensures r.None? <==> forall i :: 0 <= i < |docs| ==> docs[i].id != id
  {
    if docs == [] then None
    else if docs[0].id == id then Some(0)
    else match FindById(docs[1..], id)
      case Some(k) => Some(k + 1)
      case None => None
  }

  predicate IsDocId(docs: seq<Doc>, id: nat) {
    exists i :: 0 <= i < |docs| && docs[i].id == id
  }

  /** Is some document called `filename`? */
  predicate HasName(docs: seq<Doc>, filename: string) {
    exists i :: 0 <= i < |docs| && docs[i].filename == filename
  }

  /** A store update that keeps every old row's id and name, and adds at most rows named `filename`. */
  lemma KeepsIdsAndNames(docs: seq<Doc>, docs': seq<Doc>, filename: string)
    requires |docs| <= |docs'| <= |docs| + 1
    requires forall i :: 0 <= i < |docs| ==> docs'[i].id == docs[i].id
    requires forall i :: 0 <= i < |docs| ==> docs'[i].filename == docs[i].filename
    requires |docs'| == |docs| + 1 ==> docs'[|docs|].filename == filename
    requires HasName(docs, filename) || |docs'| == |docs| + 1
    ensures forall x :: IsDocId(docs, x) ==> IsDocId(docs', x)
    ensures forall n :: HasName(docs', n) <==> HasName(docs, n) || n == filename
  {
    forall x | IsDocId(docs, x) ensures IsDocId(docs', x) {
      var i :| 0 <= i < |docs| && docs[i].id == x;
      assert docs'[i].id == x;
    }
    forall n | HasName(docs, n) ensures HasName(docs', n) {
      var i :| 0 <= i < |docs| && docs[i].filename == n;
      assert docs'[i].filename == n;
    }
  }

  /** Appending a document with the next id and a new name keeps the docs table well formed. */
  lemma DocsAppend(docs: seq<Doc>, nextId: nat, d: Doc)
    requires DocsWellFormed(docs, nextId) && d.id == nextId && !HasName(docs, d.filename)
    ensures DocsWellFormed(docs + [d], nextId + 1)
  {
  }

  /** Replacing a document's content keeps the docs table well formed. */
  lemma DocsReplace(docs: seq<Doc>, nextId: nat, k: nat, content: string)
    requires DocsWellFormed(docs, nextId) && k < |docs|
    ensures DocsWellFormed(docs[k := docs[k].(content := content)], nextId)
  {
    var docs' := docs[k := docs[k].(content := content)];
    assert forall i :: 0 <= i < |docs| ==> docs'[i].id == docs[i].id && docs'[i].filename == docs[i].filename;
  }

  /** Is there already a dependency row for this (child, citation) pair? */
  predicate HasDependency(deps: seq<Dependency>, child: nat, refName: string) {
    exists i :: 0 <= i < |deps| && deps[i].child == child && deps[i].refName == refName
  }

  /** Appending a row records exactly its own (child, reference) pair in addition. */
  lemma HasDependencySnoc(deps: seq<Dependency>, x: Dependency)
    ensures forall c, r :: HasDependency(deps + [x], c, r) <==> HasDependency(deps, c, r) || (c == x.child && r == x.refName)
  {
    forall c, r | HasDependency(deps + [x], c, r)
      ensures HasDependency(deps, c, r) || (c == x.child && r == x.refName)
    {
      var i :| 0 <= i < |deps + [x]| && (deps + [x])[i].child == c && (deps + [x])[i].refName == r;
      if i < |deps| {
        assert deps[i] == (deps + [x])[i];
      }
    }
    forall c, r | HasDependency(deps, c, r)
      ensures HasDependency(deps + [x], c, r)
    {
      var i :| 0 <= i < |deps| && deps[i].child == c && deps[i].refName == r;
      assert (deps + [x])[i] == deps[i];
    }
    assert (deps + [x])[|deps|] == x;
  }

  /** The rows keep their child and citation: only parents and statuses may differ. */
  lemma HasDependencySameKeys(deps: seq<Dependency>, deps': seq<Dependency>)
    requires |deps'| == |deps|
    requires forall i :: 0 <= i < |deps| ==> deps'[i].child == deps[i].child && deps'[i].refName == deps[i].refName
    ensures forall c, r :: HasDependency(deps', c, r) <==> HasDependency(deps, c, r)
  {
  }

  // ------------------------------------------------------- document upsert

  /** The `docs` table after `add_document(filename, content)`: a known name gets the new content, a new one a new row. */
  function UpsertDocs(docs: seq<Doc>, nextId: nat, filename: string, content: string): seq<Doc> {
    match FindByName(docs, filename)
    case Some(k) => docs[k := Doc(docs[k].id, filename, content)]
    case None => docs + [Doc(nextId, filename, content)]
  }

  /** The AUTOINCREMENT counter after `add_document(filename, ...)`. */
  function UpsertNextId(docs: seq<Doc>, nextId: nat, filename: string): nat {
    if FindByName(docs, filename).Some? then nextId else nextId + 1
  }

  /** The id of the document called `n`; 0, which no document has, when there is none. */
  function IdOf(docs: seq<Doc>, n: string): nat {
    match FindByName(docs, n)
    case Some(k) => docs[k].id
    case None => 0
  }

  /** The lookup by name depends only on the file names. */
  lemma {:induction false} FindByNameSameNames(docs: seq<Doc>, docs': seq<Doc>, n: string)
    requires |docs'| == |docs| && forall i :: 0 <= i < |docs| ==> docs'[i].filename == docs[i].filename
    ensures FindByName(docs', n) == FindByName(docs, n)
  {
    if docs != [] {
      assert forall i :: 0 <= i < |docs[1..]| ==> docs'[1..][i].filename == docs[1..][i].filename;
      FindByNameSameNames(docs[1..], docs'[1..], n);
    }
  }

  /** A row appended after the others is found only when no earlier row has the name. */
  lemma {:induction false} FindByNameSnoc(docs: seq<Doc>, x: Doc, n: string)
    ensures FindByName(docs + [x], n) ==
            if FindByName(docs, n).Some? then FindByName(docs, n)
            else if x.filename == n then Some(|docs|) else None
  {
    if docs != [] {
      assert (docs + [x])[1..] == docs[1..] + [x];
      FindByNameSnoc(docs[1..], x, n);
    }
  }

  /** After the upsert the name is found, holding the new content. */
  lemma UpsertFinds(docs: seq<Doc>, nextId: nat, filename: string, content: string)
    ensures var d := UpsertDocs(docs, nextId, filename, content);
            && FindByName(d, filename).Some?
            && d[FindByName(d, filename).value] == Doc(IdOf(d, filename), filename, content)
            && (FindByName(docs, filename).Some? ==> IdOf(d, filename) == IdOf(docs, filename))
            && (FindByName(docs, filename).None? ==> IdOf(d, filename) == nextId)
  {
    var d := UpsertDocs(docs, nextId, filename, content);
    match FindByName(docs, filename)
    case Some(k) =>
      FindByNameSameNames(docs, d, filename);
    case None =>
      FindByNameSnoc(docs, Doc(nextId, filename, content), filename);
  }

  /** Another name is found at the same row as before, and that row is unchanged. */
  lemma UpsertKeepsOthers(docs: seq<Doc>, nextId: nat, filename: string, content: string, n: string)
    requires n != filename
    ensures var d := UpsertDocs(docs, nextId, filename, content);
            && FindByName(d, n) == FindByName(docs, n)
            && (FindByName(docs, n).Some? ==> d[FindByName(docs, n).value] == docs[FindByName(docs, n).value])
  {
    var d := UpsertDocs(docs, nextId, filename, content);
    match FindByName(docs, filename)
    case Some(k) =>
      FindByNameSameNames(docs, d, n);
    case None =>
      FindByNameSnoc(docs, Doc(nextId, filename, content), n);
  }

  /** A stored document keeps its id through an upsert of any name. */
  lemma UpsertKeepsId(docs: seq<Doc>, nextId: nat, filename: string, content: string, n: string)
    requires HasName(docs, n)
    ensures IdOf(UpsertDocs(docs, nextId, filename, content), n) == IdOf(docs, n)
  {
    if n == filename {
      UpsertFinds(docs, nextId, filename, content);
    } else {
      UpsertKeepsOthers(docs, nextId, filename, content, n);
    }
  }

  /** The key a document is found under when resolving: `.txt` removed everywhere, then lower-cased. */
  function NormalizeName(filename: string): string {
    Lower(RemoveAll(filename, ".txt"))
  }

  /** A citation as compared during resolution: lower-cased, then stripped. */
  function CleanRef(refName: string): string {
    Strip(Lower(refName))
  }

  /** The bidirectional substring test between a normalised name and a cleaned citation. */
  predicate NameMatches(name: string, refClean: string) {
    Contains(refClean, name) || Contains(name, refClean)
  }

  /** Position of `key` among the entries, or `|m|` when it is absent. */
  function KeyIndex(m: seq<NameEntry>, key: string): (k: nat)
    ensures k <= |m|
    ensures k < |m| ==> m[k].0 == key
    ensures forall i :: 0 <= i < k ==> m[i].0 != key
  {
    if m == [] then 0 else if m[0].0 == key then 0 else 1 + KeyIndex(m[1..], key)
  }

  /**
   * `d[key] = v` on a Python dict, seen as its sequence of items: an existing
   * key keeps its position and takes the new value, a new key goes last.
   */
  function DictSet(m: seq<NameEntry>, key: string, v: nat): (r: seq<NameEntry>)
    ensures KeyIndex(m, key) < |m| ==> |r| == |m| && r[KeyIndex(m, key)] == (key, v)
    ensures KeyIndex(m, key) == |m| ==> |r| == |m| + 1 && r[|m|] == (key, v)
    ensures forall i :: 0 <= i < |m| ==> r[i].0 == m[i].0 && (m[i].0 != key ==> r[i] == m[i])
  {
    var k := KeyIndex(m, key);
    if k < |m| then m[k := (key, v)] else m + [(key, v)]
  }

  /** The (normalised name, id) pair of each document, in document order. */
  function NameKeys(docs: seq<Doc>): (r: seq<NameEntry>)
    ensures |r| == |docs|
    ensures forall p :: 0 <= p < |docs| ==> r[p] == (NormalizeName(docs[p].filename), docs[p].id)
  {
    seq(|docs|, p requires 0 <= p < |docs| => (NormalizeName(docs[p].filename), docs[p].id))
  }

  /** A dict comprehension over `pairs`: each pair is stored with `d[key] = v`, in order. */
  function DictOf(pairs: seq<NameEntry>): seq<NameEntry>
    decreases |pairs|
  {
    if pairs == [] then []
    else
      var last := pairs[|pairs| - 1];
      DictSet(DictOf(pairs[..|pairs| - 1]), last.0, last.1)
  }

  /** The name index `{normalise(filename): id for each doc}`, built in document order. */
  function DocMap(docs: seq<Doc>): seq<NameEntry> {
    DictOf(NameKeys(docs))
  }

  /** Is `p` the position of the last pair whose key is `key`? */
  predicate IsLastWithKey(pairs: seq<NameEntry>, key: string, p: nat) {
    p < |pairs| && pairs[p].0 == key
    && forall q :: p < q < |pairs| ==> pairs[q].0 != key
  }

  /** Each key is in the dict once. */
  lemma {:induction false} DictKeysUnique(pairs: seq<NameEntry>)
    ensures forall i, j :: 0 <= i < j < |DictOf(pairs)| ==> DictOf(pairs)[i].0 != DictOf(pairs)[j].0
    decreases |pairs|
  {
    if pairs != [] {
      DictKeysUnique(pairs[..|pairs| - 1]);
    }
  }

  /** Every key of the input is a key of the dict. */
  lemma {:induction false} DictHasEveryKey(pairs: seq<NameEntry>)
    ensures forall p :: 0 <= p < |pairs| ==> KeyIndex(DictOf(pairs), pairs[p].0) < |DictOf(pairs)|
    decreases |pairs|
  {
    if pairs != [] {
      var init := pairs[..|pairs| - 1];
      var m0 := DictOf(init);
      var m := DictOf(pairs);
      DictHasEveryKey(init);
      forall p | 0 <= p < |pairs|
        ensures KeyIndex(m, pairs[p].0) < |m|
      {
        var x := pairs[p].0;
        if p < |init| {
          assert init[p] == pairs[p];
          assert m[KeyIndex(m0, x)].0 == x;
        } else {
          assert m[KeyIndex(m0, x)].0 == x;
        }
      }
    }
  }

  /** The entry for the key of the newest pair holds that pair. */
  lemma DictNewestKey(pairs: seq<NameEntry>, i: nat)
    requires pairs != [] && i < |DictOf(pairs)| && DictOf(pairs)[i].0 == pairs[|pairs| - 1].0
    ensures IsLastWithKey(pairs, DictOf(pairs)[i].0, |pairs| - 1) && pairs[|pairs| - 1].1 == DictOf(pairs)[i].1
  {
    var init := pairs[..|pairs| - 1];
    var last := pairs[|pairs| - 1];
    var m0 := DictOf(init);
    var k := KeyIndex(m0, last.0);
    if k < |m0| {
      DictKeysUnique(pairs);
      assert DictOf(pairs)[k].0 == last.0;
    }
  }

  /** An entry under any other key is the one the dict of the earlier pairs had. */
  lemma DictOlderKey(pairs: seq<NameEntry>, i: nat)
    requires pairs != [] && i < |DictOf(pairs)| && DictOf(pairs)[i].0 != pairs[|pairs| - 1].0
    ensures i < |DictOf(pairs[..|pairs| - 1])| && DictOf(pairs)[i] == DictOf(pairs[..|pairs| - 1])[i]
  {
  }

  /** The value under each key is the value of the last pair with that key. */
  lemma {:induction false} DictValueIsLast(pairs: seq<NameEntry>)
    ensures forall i :: 0 <= i < |DictOf(pairs)| ==>
              exists p: nat :: IsLastWithKey(pairs, DictOf(pairs)[i].0, p) && pairs[p].1 == DictOf(pairs)[i].1
    decreases |pairs|
  {
    if pairs != [] {
      var init := pairs[..|pairs| - 1];
      var m0 := DictOf(init);
      var m := DictOf(pairs);
      DictValueIsLast(init);
      forall i | 0 <= i < |m|
        ensures exists p: nat :: IsLastWithKey(pairs, m[i].0, p) && pairs[p].1 == m[i].1
      {
        if m[i].0 == pairs[|pairs| - 1].0 {
          DictNewestKey(pairs, i);
        } else {
          DictOlderKey(pairs, i);
          var p: nat :| IsLastWithKey(init, m0[i].0, p) && init[p].1 == m0[i].1;
          assert init[p] == pairs[p];
          assert IsLastWithKey(pairs, m[i].0, p);
        }
      }
    } else {
      assert DictOf(pairs) == [];
    }
  }

  lemma KeyIndexSnoc(pairs: seq<NameEntry>, x: NameEntry, key: string)
    ensures KeyIndex(pairs + [x], key) ==
            if KeyIndex(pairs, key) < |pairs| then KeyIndex(pairs, key)
            else if x.0 == key then |pairs| else |pairs| + 1
  {
    var q := KeyIndex(pairs, key);
    if q < |pairs| {
      assert (pairs + [x])[q] == pairs[q];
    } else if x.0 == key {
      assert (pairs + [x])[|pairs|] == x;
    } else {
      assert forall i :: 0 <= i < |pairs| + 1 ==> (pairs + [x])[i].0 != key;
    }
  }

  /** The keys are ordered by the first occurrence of each key in the input (a dict keeps insertion order). */
  lemma {:induction false} DictFirstOccurrenceOrder(pairs: seq<NameEntry>)
    ensures forall i :: 0 <= i < |DictOf(pairs)| ==> KeyIndex(pairs, DictOf(pairs)[i].0) < |pairs|
    ensures forall i, j :: 0 <= i < j < |DictOf(pairs)| ==>
              KeyIndex(pairs, DictOf(pairs)[i].0) < KeyIndex(pairs, DictOf(pairs)[j].0)
    decreases |pairs|
  {
    if pairs != [] {
      var init := pairs[..|pairs| - 1];
      var x := pairs[|pairs| - 1];
      var m0 := DictOf(init);
      DictFirstOccurrenceOrder(init);
      assert pairs == init + [x];
      if KeyIndex(m0, x.0) == |m0| {
        assert KeyIndex(init, x.0) == |init| by {
          if KeyIndex(init, x.0) < |init| {
            DictHasEveryKey(init);
          }
        }
        KeyIndexSnoc(init, x, x.0);
      }
      forall i | 0 <= i < |m0|
        ensures KeyIndex(pairs, m0[i].0) == KeyIndex(init, m0[i].0) < |init|
      {
        KeyIndexSnoc(init, x, m0[i].0);
      }
    }
  }

  /** The value under each name is the id of the last document with that normalised name. */
  lemma DocMapValueIsLast(docs: seq<Doc>, i: nat)
    requires i < |DocMap(docs)|
    ensures exists p: nat :: IsLastWithKey(NameKeys(docs), DocMap(docs)[i].0, p) && docs[p].id == DocMap(docs)[i].1
  {
    DictValueIsLast(NameKeys(docs));
    var p: nat :| IsLastWithKey(NameKeys(docs), DocMap(docs)[i].0, p) && NameKeys(docs)[p].1 == DocMap(docs)[i].1;
    assert docs[p].id == DocMap(docs)[i].1;
  }

  /** Every id the resolution pass can assign is the id of an existing document. */
  lemma ResolvedParentExists(docs: seq<Doc>, refClean: string)
    ensures FirstMatch(DocMap(docs), refClean).Some? ==> IsDocId(docs, FirstMatch(DocMap(docs), refClean).value)
  {
    var m := DocMap(docs);
    if FirstMatch(m, refClean).Some? {
      var i := MatchIndex(m, refClean);
      DocMapValueIsLast(docs, i);
      var p: nat :| IsLastWithKey(NameKeys(docs), m[i].0, p) && docs[p].id == m[i].1;
    }
  }

  /** Position of the first index entry that matches the cleaned citation, or `|m|`: the loop that breaks on a match. */
  function MatchIndex(m: seq<NameEntry>, refClean: string): (i: nat)
    ensures i <= |m|
    ensures i < |m| ==> NameMatches(m[i].0, refClean)
    ensures forall j :: 0 <= j < i ==> !NameMatches(m[j].0, refClean)
  {
    if m == [] then 0 else if NameMatches(m[0].0, refClean) then 0 else 1 + MatchIndex(m[1..], refClean)
  }

  /** The resolution result for one cleaned citation: the id of the first index entry that matches. */
  function FirstMatch(m: seq<NameEntry>, refClean: string): (r: Option<nat>)
    ensures r.None? <==> forall i :: 0 <= i < |m| ==> !NameMatches(m[i].0, refClean)
  {
    var i := MatchIndex(m, refClean);
    if i < |m| then Some(m[i].1) else None
  }

  /** The inner loop of the resolution pass: scan the index in order and stop at the first entry that matches. */
  method FindParent(docMap: seq<NameEntry>, refClean: string) returns (matched: Option<nat>)
    ensures matched == FirstMatch(docMap, refClean)
  {
    matched := None;
    var j := 0;
    while j < |docMap|
      invariant 0 <= j <= |docMap|
      invariant forall k :: 0 <= k < j ==> !NameMatches(docMap[k].0, refClean)
    {
      if NameMatches(docMap[j].0, refClean) {
        matched := Some(docMap[j].1);
        return;
      }
      j := j + 1;
    }
  }

  /** One row as the resolution pass leaves it: only a row without a parent is looked at. */
  function ResolveRow(row: Dependency, m: seq<NameEntry>): (r: Dependency)
    ensures r.child == row.child && r.refName == row.refName
    ensures row.parent.Some? ==> r == row
    ensures row.parent.None? && FirstMatch(m, CleanRef(row.refName)).None? ==> r == row
    ensures row.parent.None? && FirstMatch(m, CleanRef(row.refName)).Some? ==>
              r.parent == FirstMatch(m, CleanRef(row.refName)) && r.status == Resolved
  {
    if row.parent.Some? then row
    else match FirstMatch(m, CleanRef(row.refName))
      case Some(d) => row.(parent := Some(d), status := Resolved)
      case None => row
  }

  /** A second pass over the same documents changes nothing: resolution is idempotent. */
  lemma ResolveRowIdempotent(row: Dependency, m: seq<NameEntry>)
    ensures ResolveRow(ResolveRow(row, m), m) == ResolveRow(row, m)
  {
  }

  /** `SELECT rule_text, rule_type FROM rules WHERE doc_id = d`, in row order. */
  function RulesOf(rules: seq<RuleRow>, d: nat): (r: seq<(string, RuleType)>)
    ensures |r| <= |rules|
  {
    if rules == [] then []
    else (if rules[0].docId == d then [(rules[0].text, rules[0].ruleType)] else []) + RulesOf(rules[1..], d)
  }

  /** The rules of `d` are exactly the rows owned by `d`. */
  lemma {:induction false} RulesOfMembers(rules: seq<RuleRow>, d: nat, text: string, ty: RuleType)
    ensures (text, ty) in RulesOf(rules, d) <==> RuleRow(d, text, ty) in rules
  {
    if rules != [] {
      RulesOfMembers(rules[1..], d, text, ty);
      assert rules == [rules[0]] + rules[1..];
    }
  }

  /** Appending a row extends the owner's rule list at its end and no other list: insertion order is kept. */
  lemma {:induction false} RulesOfSnoc(rules: seq<RuleRow>, x: RuleRow, d: nat)
    ensures RulesOf(rules + [x], d) == RulesOf(rules, d) + (if x.docId == d then [(x.text, x.ruleType)] else [])
  {
    if rules != [] {
      assert (rules + [x])[1..] == rules[1..] + [x];
      RulesOfSnoc(rules[1..], x, d);
    } else {
      assert RulesOf([x], d) == (if x.docId == d then [(x.text, x.ruleType)] else []) + RulesOf([], d);
    }
  }

  /** `SELECT p.id, p.filename FROM dependencies d JOIN docs p ON d.parent_doc_id = p.id WHERE d.child_doc_id = c`. */
  function ParentsOf(deps: seq<Dependency>, docs: seq<Doc>, c: nat): (r: seq<(nat, string)>)
    ensures forall e :: e in r ==> IsDocEntry(docs, e)
  {
    if deps == [] then []
    else
      var here := if deps[0].child == c && deps[0].parent.Some? then
                    match FindById(docs, deps[0].parent.value)
                    case Some(k) => [(docs[k].id, docs[k].filename)]
                    case None => []
                  else [];
      here + ParentsOf(deps[1..], docs, c)
  }

  /** The stored parent ids of the resolved rows of `c`, in row order. */
  function ParentIds(deps: seq<Dependency>, c: nat): (r: seq<nat>)
    ensures forall x :: x in r <==> exists j :: 0 <= j < |deps| && deps[j].child == c && deps[j].parent == Some(x)
  {
    if deps == [] then []
    else
      var rest := ParentIds(deps[1..], c);
      assert forall j :: 0 <= j < |deps[1..]| ==> deps[1..][j] == deps[j + 1];
      (if deps[0].child == c && deps[0].parent.Some? then [deps[0].parent.value] else []) + rest
  }

  /** Is `e` the (id, filename) of a stored document? */
  predicate IsDocEntry(docs: seq<Doc>, e: (nat, string)) {
    exists k :: 0 <= k < |docs| && e == (docs[k].id, docs[k].filename)
  }

  /**
   * When every parent id names a document, the join yields, for each resolved
   * row of `c` in row order, the stored document that row points to.
   */
  lemma {:induction false} ParentsOfRows(deps: seq<Dependency>, docs: seq<Doc>, c: nat)
    ensures ParentsExist(deps, docs) ==>
              && |ParentsOf(deps, docs, c)| == |ParentIds(deps, c)|
              && forall i :: 0 <= i < |ParentIds(deps, c)| ==>
                   ParentsOf(deps, docs, c)[i].0 == ParentIds(deps, c)[i] && IsDocEntry(docs, ParentsOf(deps, docs, c)[i])
  {
    if deps != [] && ParentsExist(deps, docs) {
      assert ParentsExist(deps[1..], docs) by {
        forall i | 0 <= i < |deps[1..]| && deps[1..][i].parent.Some? ensures IsDocId(docs, deps[1..][i].parent.value) {
          assert deps[1..][i] == deps[i + 1];
        }
      }
      ParentsOfRows(deps[1..], docs, c);
      if deps[0].parent.Some? {
        assert IsDocId(docs, deps[0].parent.value);
      }
      var r, ids := ParentsOf(deps, docs, c), ParentIds(deps, c);
      var r', ids' := ParentsOf(deps[1..], docs, c), ParentIds(deps[1..], c);
      if deps[0].child == c && deps[0].parent.Some? {
        var k := FindById(docs, deps[0].parent.value).value;
        assert r == [(docs[k].id, docs[k].filename)] + r';
        assert ids == [deps[0].parent.value] + ids';
        forall i | 0 <= i < |ids| ensures r[i].0 == ids[i] && IsDocEntry(docs, r[i]) {
          if i > 0 {
            assert r[i] == r'[i - 1] && ids[i] == ids'[i - 1];
          }
        }
      } else {
        assert r == r' && ids == ids';
      }
    }
  }

  /** Ids come from the counter and grow with insertion order; file names are unique (the UNIQUE column). */
  ghost predicate DocsWellFormed(docs: seq<Doc>, nextId: nat) {
    && nextId >= 1
    && (forall i :: 0 <= i < |docs| ==> 1 <= docs[i].id < nextId)
    && (forall i, j :: 0 <= i < j < |docs| ==> docs[i].id < docs[j].id)
    && (forall i, j :: 0 <= i < j < |docs| ==> docs[i].filename != docs[j].filename)
  }

  /** One row per (child, citation) pair; a row is RESOLVED exactly when it has a parent. */
  ghost predicate DepsWellFormed(deps: seq<Dependency>) {
    && (forall i, j :: 0 <= i < j < |deps| ==> deps[i].child != deps[j].child || deps[i].refName != deps[j].refName)
    && (forall i :: 0 <= i < |deps| ==> (deps[i].status == Resolved <==> deps[i].parent.Some?))
  }

  /** Every resolved parent is the id of a stored document. */
  ghost predicate ParentsExist(deps: seq<Dependency>, docs: seq<Doc>) {
    forall i :: 0 <= i < |deps| && deps[i].parent.Some? ==> IsDocId(docs, deps[i].parent.value)
  }

  /** Replacing documents by ones with the same ids keeps every parent reference valid. */
  lemma ParentsExistSameIds(deps: seq<Dependency>, docs: seq<Doc>, docs': seq<Doc>)
    requires ParentsExist(deps, docs)
    requires |docs| <= |docs'| && forall i :: 0 <= i < |docs| ==> docs'[i].id == docs[i].id
    ensures ParentsExist(deps, docs')
  {
    forall i | 0 <= i < |deps| && deps[i].parent.Some?
      ensures IsDocId(docs', deps[i].parent.value)
    {
      var k :| 0 <= k < |docs| && docs[k].id == deps[i].parent.value;
      assert docs'[k].id == deps[i].parent.value;
    }
  }

  /** The dependency rows once the resolution loop has visited the first `i` of them. */
  function ResolvedUpTo(deps: seq<Dependency>, m: seq<NameEntry>, i: nat): (r: seq<Dependency>)
    ensures |r| == |deps|
    ensures forall k :: 0 <= k < |deps| ==> r[k] == if k < i then ResolveRow(deps[k], m) else deps[k]
  {
    seq(|deps|, k requires 0 <= k < |deps| => if k < i then ResolveRow(deps[k], m) else deps[k])
  }

  lemma ResolvedUpToStep(deps: seq<Dependency>, m: seq<NameEntry>, i: nat)
    requires i < |deps|
    ensures ResolvedUpTo(deps, m, i + 1) == ResolvedUpTo(deps, m, i)[i := ResolveRow(deps[i], m)]
  {
  }

  /** Resolution keeps the table well formed and only ever points at stored documents. */
  lemma ResolvedUpToValid(deps: seq<Dependency>, docs: seq<Doc>, i: nat)
    requires DepsWellFormed(deps) && ParentsExist(deps, docs)
    ensures DepsWellFormed(ResolvedUpTo(deps, DocMap(docs), i))
    ensures ParentsExist(ResolvedUpTo(deps, DocMap(docs), i), docs)
  {
    var r := ResolvedUpTo(deps, DocMap(docs), i);
    forall k | 0 <= k < |r| && r[k].parent.Some? ensures IsDocId(docs, r[k].parent.value) {
      ResolvedParentExists(docs, CleanRef(deps[k].refName));
    }
  }

  class DocStore {
    var docs: seq<Doc>
    var nextId: nat
    var deps: seq<Dependency>
    var rules: seq<RuleRow>

    /** The table constraints: ids from the counter, unique file names, one row per (child, citation), resolved parents exist. */
    ghost predicate Valid()
      reads this
    {
      DocsWellFormed(docs, nextId) && DepsWellFormed(deps) && ParentsExist(deps, docs)
    }

    /** An empty database; the first id handed out is 1, as with SQLite's AUTOINCREMENT. */
    constructor ()
      ensures Valid()
      ensures docs == [] && deps == [] && rules == [] && nextId == 1
    {
      docs, nextId, deps, rules := [], 1, [], [];
    }

    /** Insert-or-update by file name; returns the document's id. */
    method AddDocument(filename: string, content: string) returns (id: nat)
      requires Valid()
      modifies this
      ensures Valid()
      ensures deps == old(deps) && rules == old(rules)
      ensures match FindByName(old(docs), filename)
              case Some(k) =>
                && id == old(docs)[k].id
                && docs == old(docs)[k := Doc(id, filename, content)]
                && nextId == old(nextId)
              case None =>
                && id == old(nextId)
                && docs == old(docs) + [Doc(id, filename, content)]
                && nextId == old(nextId) + 1
      ensures FindById(docs, id).Some? && docs[FindById(docs, id).value] == Doc(id, filename, content)
      ensures forall x :: IsDocId(old(docs), x) ==> IsDocId(docs, x)
      ensures forall n :: HasName(docs, n) <==> HasName(old(docs), n) || n == filename
    {
      var found := FindByName(docs, filename);
      if found.None? {
        id := nextId;
        var d := Doc(id, filename, content);
        DocsAppend(docs, nextId, d);
        ParentsExistSameIds(deps, docs, docs + [d]);
        KeepsIdsAndNames(docs, docs + [d], filename);
        assert (docs + [d])[|docs|] == d;
        docs := docs + [d];
        nextId := nextId + 1;
      } else {
        var k := found.value;
        id := docs[k].id;
        var docs' := docs[k := docs[k].(content := content)];
        assert docs'[k] == Doc(id, filename, content);
        DocsReplace(docs, nextId, k, content);
        ParentsExistSameIds(deps, docs, docs');
        KeepsIdsAndNames(docs, docs', filename);
        docs := docs';
      }
    }

    /** Records a citation of `refName` by `child` unless that pair is already recorded. */
    method AddDependency(child: nat, refName: string)
      requires Valid()
      modifies this
      ensures Valid()
      ensures docs == old(docs) && rules == old(rules) && nextId == old(nextId)
      ensures if HasDependency(old(deps), child, refName) then deps == old(deps)
              else deps == old(deps) + [Dependency(child, refName, None, Pending)]
      ensures forall c, r :: HasDependency(deps, c, r) <==> HasDependency(old(deps), c, r) || (c == child && r == refName)
    {
      if !HasDependency(deps, child, refName) {
        HasDependencySnoc(deps, Dependency(child, refName, None, Pending));
        deps := deps + [Dependency(child, refName, None, Pending)];
      }
    }

    /** Appends a rule row; there is no de-duplication. */
    method AddRule(docId: nat, text: string, ruleType: RuleType)
      requires Valid()
      modifies this
      ensures Valid()
      ensures docs == old(docs) && deps == old(deps) && nextId == old(nextId)
      ensures rules == old(rules) + [RuleRow(docId, text, ruleType)]
      ensures GetRulesForDoc(docId) == old(GetRulesForDoc(docId)) + [(text, ruleType)]
      ensures forall d :: d != docId ==> GetRulesForDoc(d) == old(GetRulesForDoc(d))
    {
      var x := RuleRow(docId, text, ruleType);
      forall d ensures RulesOf(rules + [x], d) == RulesOf(rules, d) + (if x.docId == d then [(x.text, x.ruleType)] else []) {
        RulesOfSnoc(rules, x, d);
      }
      rules := rules + [x];
    }

    /**
     * The resolution pass: every row without a parent is matched against the
     * name index and, on a match, takes the id of the first matching entry.
     */
    method ResolveDependencies()
      requires Valid()
      modifies this
      ensures Valid()
      ensures docs == old(docs) && rules == old(rules) && nextId == old(nextId)
      ensures |deps| == |old(deps)|
      ensures forall i :: 0 <= i < |deps| ==> deps[i] == ResolveRow(old(deps)[i], DocMap(docs))
      ensures forall i :: 0 <= i < |deps| && deps[i].parent.None? ==> FirstMatch(DocMap(docs), CleanRef(deps[i].refName)).None?
    {
      var docMap := DocMap(docs);
      var i := 0;
      while i < |deps|
        invariant 0 <= i <= |old(deps)|
        invariant docs == old(docs) && rules == old(rules) && nextId == old(nextId)
        invariant deps == ResolvedUpTo(old(deps), docMap, i)
      {
        ResolvedUpToStep(old(deps), docMap, i);
        if deps[i].parent.None? {
          var refClean := CleanRef(deps[i].refName);
          var matched := FindParent(docMap, refClean);
          if matched.Some? {
            deps := deps[i := deps[i].(parent := matched, status := Resolved)];
          }
        }
        i := i + 1;
      }
      ResolvedUpToValid(old(deps), docs, i);
    }

    /** `get_all_docs`: (id, filename) of every document, in id order. */
    function GetAllDocs(): (r: seq<(nat, string)>)
      reads this
      ensures |r| == |docs|
      ensures forall i :: 0 <= i < |docs| ==> r[i] == (docs[i].id, docs[i].filename)
    {
      seq(|docs|, i requires 0 <= i < |docs| reads this => (docs[i].id, docs[i].filename))
    }

    /** `get_doc_by_id`: the row with that id, or nothing. */
    function GetDocById(id: nat): (r: Option<Doc>)
      reads this
      ensures r.Some? <==> IsDocId(docs, id)
      ensures r.Some? ==> r.value in docs && r.value.id == id
    {
      match FindById(docs, id)
      case Some(k) => Some(docs[k])
      case None => None
    }

    /** `get_rules_for_doc`: (text, type) of the rules owned by `docId`, in insertion order. */
    function GetRulesForDoc(docId: nat): (r: seq<(string, RuleType)>)
      reads this
      ensures forall t, ty :: (t, ty) in r <==> RuleRow(docId, t, ty) in rules
    {
      forall t, ty ensures (t, ty) in RulesOf(rules, docId) <==> RuleRow(docId, t, ty) in rules {
        RulesOfMembers(rules, docId, t, ty);
      }
      RulesOf(rules, docId)
    }

    /** `get_parent_docs`: one (id, filename) per resolved dependency row of `child`, duplicates kept. */
    function GetParentDocs(child: nat): (r: seq<(nat, string)>)
      reads this
      ensures ParentsExist(deps, docs) ==> |r| == |ParentIds(deps, child)|
      ensures ParentsExist(deps, docs) ==>
                forall i :: 0 <= i < |r| ==> r[i].0 == ParentIds(deps, child)[i] && IsDocEntry(docs, r[i])
      ensures forall e :: e in r ==> IsDocEntry(docs, e)
    {
      ParentsOfRows(deps, docs, child);
      ParentsOf(deps, docs, child)
    }
  }
}
