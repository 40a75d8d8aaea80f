/** The folder entity and the `catalog.folders` table: an adjacency list (`parentId`) with a
    materialized path and level kept beside it by string operations. */
module Folders {
  import opened Common
  import opened SqlStrings

  type Id = string

  datatype Folder = Folder(id: Id, name: string, parentId: Option<Id>, ownerId: string,
                           description: Option<string>, path: string, level: int,
                           sortOrder: int, version: int, featureCount: int)
  {
    function WithName(newName: string): Folder {
      this.(name := newName)
    }

    function WithIncrementedVersion(): Folder {
      this.(version := version + 1)
    }

    /** A null or empty parent id, or a missing parent path, moves the folder to the root. */
    function WithParent(newParentId: Option<Id>, parentPath: Option<string>, parentLevel: int): Folder {
      this.(parentId := newParentId,
            path := if Truthy(newParentId) && Truthy(parentPath) then parentPath.value + "/" + id else "root/" + id,
            level := if Truthy(newParentId) then parentLevel + 1 else 0)
    }
  }

  /** JavaScript truthiness of a nullable string: null and the empty string are false. */
  predicate Truthy(s: Option<string>) {
    s.Some? && s.value != ""
  }

  function LowerHex(c: char): char {
    if 'A' <= c <= 'F' then c - 'A' + 'a' else c
  }

  /** The value of a uuid that a client spelled with hex digits of either case, in its canonical spelling.
      SQL compares values; the use cases compare spellings. */
  function Uuid(text: string): (id: Id)
    ensures |id| == |text|
  {
    seq(|text|, i requires 0 <= i < |text| => LowerHex(text[i]))
  }

  function Value(text: Option<string>): Option<Id> {
    if Truthy(text) then Some(Uuid(text.value)) else None
  }

  function CreateRoot(id: Id, name: string, ownerId: string, description: Option<string>, sortOrder: int): Folder {
    Folder(id, name, None, ownerId, description, "root/" + id, 0, sortOrder, 1, 0)
  }

  function CreateChild(id: Id, name: string, parentId: Id, parentPath: string, parentLevel: int,
                       ownerId: string, description: Option<string>, sortOrder: int): Folder
  {
    Folder(id, name, Some(parentId), ownerId, description, parentPath + "/" + id, parentLevel + 1, sortOrder, 1, 0)
  }

  // ---- the table and its SQL statements ----

  type Table = map<Id, Folder>

  /** `SELECT id ... WHERE path LIKE $1 || '/%'` */
  function PathMatches(t: Table, path: string): set<Id> {
    set j | j in t && Like(t[j].path, path + "/%")
  }

  /** `UPDATE ... SET path = replace(path, $1, $2), level = level + $3 WHERE path LIKE $1 || '/%'` */
  function RewriteSubtree(t: Table, oldPath: string, newPath: string, delta: int): Table {
    map j | j in t ::
      if Like(t[j].path, oldPath + "/%")
      then t[j].(path := Replace(t[j].path, oldPath, newPath), level := t[j].level + delta)
      else t[j]
  }

  /** Rows that `findByNameAndParent` may return. */
  function SameNameRows(t: Table, name: string, parentId: Option<Id>, ownerId: string): set<Id> {
    if Truthy(parentId)
    then set j | j in t && t[j].name == name && t[j].parentId == parentId
    else set j | j in t && t[j].name == name && t[j].parentId == None && t[j].ownerId == ownerId
  }

  /** The unique key (parent_id, name); null parents never collide. */
  predicate UniqueClash(t: Table, id: Id, name: string, parentId: Option<Id>) {
    parentId.Some? && exists j | j in t :: j != id && t[j].parentId == parentId && t[j].name == name
  }

  /** `UPDATE ... WHERE id = $8`: the owner and the feature count stay. */
  function UpdateRow(t: Table, f: Folder): Table {
    if f.id in t
    then t[f.id := f.(ownerId := t[f.id].ownerId, featureCount := t[f.id].featureCount)]
    else t
  }

  /** `DELETE ... WHERE id = $1` under `ON DELETE SET NULL` on parent_id. */
  function DeleteRow(t: Table, id: Id): Table {
    map j | j in t && j != id ::
      if t[j].parentId == Some(id) then t[j].(parentId := None) else t[j]
  }

  // ---- the invariant tying path and level to the parent links ----

  /** Folder ids are version 4 UUIDs in text form: hex digits and dashes. */
  predicate IdChar(c: char) {
    '0' <= c <= '9' || 'a' <= c <= 'f' || c == '-'
  }

  predicate ValidId(id: Id) {
    id != "" && forall k | 0 <= k < |id| :: IdChar(id[k])
  }

  lemma CanonicalSpelling(id: Id)
    requires ValidId(id)
    ensures Uuid(id) == id
  {
  }

  /** No parent and an empty parent id both mean the root; any other text means the uuid it spells. */
  lemma EmptyMeansRoot(text: string)
    ensures Value(None) == None && Value(Some("")) == None
    ensures text != "" ==> Value(Some(text)) == Some(Uuid(text))
    ensures Truthy(Some(text)) <==> text != ""
    ensures !Truthy(None)
  {
  }

  /** The same uuid in any mixture of cases has one value. */
  lemma SpellingsOfOneValue(a: string, b: string)
    requires |a| == |b|
    requires forall i | 0 <= i < |a| ::
               a[i] == b[i] || (a[i], b[i]) in {('A', 'a'), ('B', 'b'), ('C', 'c'), ('D', 'd'), ('E', 'e'), ('F', 'f')}
    ensures Uuid(a) == Uuid(b)
    ensures ValidId(b) ==> Uuid(a) == b
  {
  }

  predicate RowAgrees(t: Table, j: Id)
    requires j in t
  {
    && t[j].id == j && ValidId(j)
    && match t[j].parentId
       case None => t[j].path == "root/" + j && t[j].level == 0
       case Some(p) => p in t && t[j].path == t[p].path + "/" + j && t[j].level == t[p].level + 1
  }

  /** Every row's path and level are what its chain of parents says. */
  predicate PathInv(t: Table) {
    forall j {:trigger RowAgrees(t, j)} | j in t :: RowAgrees(t, j)
  }

  predicate DistinctNames(t: Table, i: Id, j: Id)
    requires i in t && j in t
  {
    i != j && t[i].parentId.Some? && t[i].parentId == t[j].parentId ==> t[i].name != t[j].name
  }

  /** The unique key (parent_id, name) holds. */
  predicate KeyInv(t: Table) {
    forall i, j {:trigger DistinctNames(t, i, j)} | i in t && j in t :: DistinctNames(t, i, j)
  }

  // ---- the tree that the parent links describe, without any strings ----

  /** `c` climbs parent links from its first folder to its last. */
  ghost predicate Chain(t: Table, c: seq<Id>) {
    |c| >= 2 && forall k | 0 <= k < |c| - 1 :: c[k] in t && t[c[k]].parentId == Some(c[k + 1])
  }

  ghost predicate ChainFrom(t: Table, c: seq<Id>, j: Id, a: Id) {
    Chain(t, c) && c[0] == j && c[|c| - 1] == a
  }

  /** `j` is a strict descendant of `a`. */
  ghost predicate Descends(t: Table, j: Id, a: Id) {
    exists c :: ChainFrom(t, c, j, a)
  }

  ghost predicate InSubtree(t: Table, j: Id, a: Id) {
    j == a || Descends(t, j, a)
  }

  predicate HasChildren(t: Table, id: Id) {
    exists c | c in t :: t[c].parentId == Some(id)
  }

  lemma DescendsStep(t: Table, j: Id, p: Id, a: Id)
    requires j in t && t[j].parentId == Some(p) && InSubtree(t, p, a)
    ensures Descends(t, j, a)
  {
    if p == a {
      assert ChainFrom(t, [j, a], j, a);
    } else {
      var c :| ChainFrom(t, c, p, a);
      assert ChainFrom(t, [j] + c, j, a);
    }
  }

  lemma ChainTail(t: Table, c: seq<Id>)
    requires Chain(t, c) && |c| > 2
    ensures Chain(t, c[1..])
  {
  }

  lemma DescendsFirst(t: Table, j: Id, a: Id)
    requires Descends(t, j, a)
    ensures j in t && t[j].parentId.Some? && InSubtree(t, t[j].parentId.value, a)
  {
    var c :| ChainFrom(t, c, j, a);
    assert c[0] in t;
    if |c| > 2 {
      ChainTail(t, c);
      assert ChainFrom(t, c[1..], c[1], a);
    }
  }

  lemma DescendantMeansChild(t: Table, j: Id, a: Id)
    requires Descends(t, j, a)
    ensures HasChildren(t, a)
  {
    var c :| ChainFrom(t, c, j, a);
    assert c[|c| - 2] in t;
  }

  // ---- paths ----

  /** "root/" followed by id characters and slashes, so the letter 'r' occurs only in front. */
  predicate CleanPath(path: string) {
    && |path| > 5 && path[..5] == "root/"
    && forall k | 5 <= k < |path| :: IdChar(path[k]) || path[k] == '/'
  }

  lemma CleanRoot(id: Id)
    requires ValidId(id)
    ensures CleanPath("root/" + id)
  {
  }

  lemma CleanChild(path: string, id: Id)
    requires CleanPath(path) && ValidId(id)
    ensures CleanPath(path + "/" + id)
  {
  }

  lemma CleanChars(path: string)
    requires CleanPath(path)
    ensures NoWildcard(path) && path[0] == 'r' && 'r' !in path[1..]
  {
  }

  /** No slash lies strictly inside the last segment. */
  lemma NoSlashInside(x: string, id: string, n: nat)
    requires ValidId(id) && |x| < n < |x| + 1 + |id|
    ensures (x + "/" + id)[n] != '/'
  {
  }

  lemma SegmentsUnique(x: string, i: Id, y: string, j: Id)
    requires ValidId(i) && ValidId(j) && x + "/" + i == y + "/" + j
    ensures x == y && i == j
  {
    var s := x + "/" + i;
    assert s[|x|] == '/' && s[|y|] == '/';
    if |x| < |y| {
      NoSlashInside(x, i, |y|);
    } else if |y| < |x| {
      NoSlashInside(y, j, |x|);
    }
    assert x == s[..|x|] && y == s[..|y|];
    assert i == s[|x| + 1..] && j == s[|y| + 1..];
  }

  function BasePath(t: Table, parentId: Option<Id>): string
    requires parentId.Some? ==> parentId.value in t
  {
    if parentId.None? then "root" else t[parentId.value].path
  }

  /** With the root written as "root", every path is its base path, a slash and the folder's id. */
  lemma PathSplits(t: Table, j: Id)
    requires PathInv(t) && j in t
    ensures ValidId(j) && t[j].id == j
    ensures t[j].parentId.Some? ==> t[j].parentId.value in t
    ensures t[j].path == BasePath(t, t[j].parentId) + "/" + j
  {
    assert RowAgrees(t, j);
    assert "root/" == "root" + "/";
  }

  lemma {:induction false} PathIsClean(t: Table, j: Id)
    requires PathInv(t) && j in t
    ensures CleanPath(t[j].path)
    decreases |t[j].path|
  {
    PathSplits(t, j);
    if t[j].parentId.None? {
      CleanRoot(j);
    } else {
      PathIsClean(t, t[j].parentId.value);
      CleanChild(t[t[j].parentId.value].path, j);
    }
  }

  lemma SamePathSameFolder(t: Table, i: Id, j: Id)
    requires PathInv(t) && i in t && j in t && t[i].path == t[j].path
    ensures i == j
  {
    PathSplits(t, i);
    PathSplits(t, j);
    SegmentsUnique(BasePath(t, t[i].parentId), i, BasePath(t, t[j].parentId), j);
  }

  /** Climbing parent links only shortens the path. */
  lemma {:induction false} ChainIsPrefix(t: Table, c: seq<Id>)
    requires PathInv(t) && Chain(t, c)
    ensures c[0] in t && c[|c| - 1] in t && t[c[|c| - 1]].path + "/" <= t[c[0]].path
    decreases |c|
  {
    assert c[0] in t && t[c[0]].parentId == Some(c[1]);
    PathSplits(t, c[0]);
    if |c| > 2 {
      ChainTail(t, c);
      ChainIsPrefix(t, c[1..]);
    }
  }

  /** What a path prefix of `base/id` that ends at a slash can be. */
  lemma PrefixCases(x: string, base: string, id: Id)
    requires ValidId(id) && x + "/" <= base + "/" + id
    ensures x == base || x + "/" <= base
  {
    var s, n := base + "/" + id, |x|;
    assert (x + "/")[n] == '/' == s[n];
    if n > |base| {
      NoSlashInside(base, id, n);
    } else if n == |base| {
      assert x == s[..n] == base;
    } else {
      assert x + "/" == s[..n + 1] == base[..n + 1];
    }
  }

  lemma {:induction false} PrefixIsChain(t: Table, j: Id, a: Id)
    requires PathInv(t) && j in t && a in t && t[a].path + "/" <= t[j].path
    ensures Descends(t, j, a)
    decreases |t[j].path|
  {
    PathSplits(t, j);
    PathIsClean(t, a);
    PrefixCases(t[a].path, BasePath(t, t[j].parentId), j);
    if t[j].parentId.Some? {
      var p := t[j].parentId.value;
      if t[a].path == t[p].path {
        SamePathSameFolder(t, a, p);
      } else {
        PrefixIsChain(t, p, a);
      }
      DescendsStep(t, j, p, a);
    }
  }

  lemma DescendsIsPrefix(t: Table, j: Id, a: Id)
    requires PathInv(t) && Descends(t, j, a)
    ensures j in t && a in t && t[a].path + "/" <= t[j].path
  {
    var c :| ChainFrom(t, c, j, a);
    ChainIsPrefix(t, c);
  }

  /** The LIKE query selects exactly the strict descendants by transitive parent links. */
  lemma LikeSelectsDescendants(t: Table, a: Id, j: Id)
    requires PathInv(t) && a in t
    ensures j in PathMatches(t, t[a].path) <==> Descends(t, j, a)
  {
    PathIsClean(t, a);
    CleanChars(t[a].path);
    if Descends(t, j, a) {
      DescendsIsPrefix(t, j, a);
      LikeIsPrefixTest(t[j].path, t[a].path);
    } else if j in t {
      LikeIsPrefixTest(t[j].path, t[a].path);
      if t[a].path + "/" <= t[j].path {
        PrefixIsChain(t, j, a);
      }
    }
  }

  /** Parent links never form a cycle. */
  lemma Acyclic(t: Table, j: Id)
    requires PathInv(t)
    ensures !Descends(t, j, j)
  {
    if Descends(t, j, j) {
      DescendsIsPrefix(t, j, j);
    }
  }

  /** A chain up to `id` does not pass `id` before its end, so it stays when only that row changes. */
  lemma {:induction false} ChainSurvives(t: Table, u: Table, id: Id, c: seq<Id>)
    requires PathInv(t) && Chain(t, c) && c[|c| - 1] == id
    requires forall j | j in t && j != id :: j in u && u[j].parentId == t[j].parentId
    ensures Chain(u, c)
  {
    forall k | 0 <= k < |c| - 1 ensures c[k] in u && u[c[k]].parentId == Some(c[k + 1]) {
      if c[k] == id {
        var d := c[k..];
        forall i | 0 <= i < |d| - 1 ensures d[i] in t && t[d[i]].parentId == Some(d[i + 1]) {
          assert d[i] == c[k + i] && d[i + 1] == c[k + i + 1];
        }
        assert ChainFrom(t, d, id, id);
        Acyclic(t, id);
      }
    }
  }

  /** A clean path holds a clean prefix of itself once, so `replace` touches only that prefix. */
  lemma ReplaceLeadingPath(from: string, path: string, to: string)
    requires CleanPath(from) && CleanPath(path) && from <= path
    ensures Replace(path, from, to) == to + path[|from|..]
  {
    CleanChars(from);
    CleanChars(path);
    var rest := path[|from|..];
    assert forall k | 0 <= k < |rest| :: rest[k] == path[1..][k + |from| - 1];
    assert path == from + rest;
    ReplacePrefixOnly(from, rest, to);
  }

  function Moved(f: Folder, oldPath: string, newPath: string, delta: int): Folder
    requires |oldPath| <= |f.path|
  {
    f.(path := newPath + f.path[|oldPath|..], level := f.level + delta)
  }

  /** Rewriting a subtree by strings changes the strict descendants, and in them only the prefix. */
  lemma RewriteChangesPrefixOnly(t: Table, a: Id, newPath: string, delta: int, j: Id)
    requires PathInv(t) && a in t && j in t
    ensures Descends(t, j, a) ==> t[a].path + "/" <= t[j].path
    ensures RewriteSubtree(t, t[a].path, newPath, delta)[j]
         == if Descends(t, j, a) then Moved(t[j], t[a].path, newPath, delta) else t[j]
  {
    LikeSelectsDescendants(t, a, j);
    if Descends(t, j, a) {
      DescendsIsPrefix(t, j, a);
      PathIsClean(t, a);
      PathIsClean(t, j);
      assert t[a].path <= t[a].path + "/";
      ReplaceLeadingPath(t[a].path, t[j].path, newPath);
    }
  }
}
