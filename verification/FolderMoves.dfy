/** What an accepted move does to the whole tree, and how a move is undone. */
module FolderMoves {
  import opened Common
  import opened Folders
  import opened FolderUpdates

  function MoveRequest(version: int, target: Option<Id>): UpdateDto {
    UpdateDto(version, None, Some(target), None, None)
  }

  // ---- subtree membership does not depend on where the subtree hangs ----

  lemma SubtreeStable(t: Table, u: Table, id: Id, j: Id)
    requires PathInv(t) && PathInv(u) && t.Keys == u.Keys
    requires forall k | k in t && k != id :: u[k].parentId == t[k].parentId
    ensures Descends(t, j, id) <==> Descends(u, j, id)
  {
    if Descends(t, j, id) {
      var c :| ChainFrom(t, c, j, id);
      ChainSurvives(t, u, id, c);
      assert ChainFrom(u, c, j, id);
    }
    if Descends(u, j, id) {
      var c :| ChainFrom(u, c, j, id);
      ChainSurvives(u, t, id, c);
      assert ChainFrom(t, c, j, id);
    }
  }

  // ---- the effect of one accepted move ----

  lemma AcceptedMoveIsMoveTo(t: Table, id: Id, dto: UpdateDto, userId: string)
    requires TableInv(t) && !UnsafeMove(t, id, dto, userId)
    requires Update(t, id, dto, userId).1.Success? && Moves(t[id], dto)
    ensures var g := Edited(t, t[id], dto);
            && g.id == id && Attaches(t, g)
            && Update(t, id, dto, userId).0 == MoveTo(t, g)
            && TableInv(MoveTo(t, g))
  {
    EditedAttaches(t, id, dto, userId);
    UpdateKeepsPathsExactly(t, id, dto, userId);
  }

  /** Rows outside the subtree keep everything; rows strictly inside keep their parent, their path
      below the moved folder and their level relative to it; the subtree keeps its members. */
  lemma MoveTouchesOnlySubtree(t: Table, id: Id, dto: UpdateDto, userId: string, j: Id)
    requires TableInv(t) && !UnsafeMove(t, id, dto, userId)
    requires Update(t, id, dto, userId).1.Success? && Moves(t[id], dto) && j in t
    ensures var t2 := Update(t, id, dto, userId).0;
            && t2.Keys == t.Keys
            && (!InSubtree(t, j, id) ==> t2[j] == t[j])
            && (Descends(t, j, id) ==>
                  && t[id].path + "/" <= t[j].path && t2[id].path + "/" <= t2[j].path
                  && t2[j].path[|t2[id].path|..] == t[j].path[|t[id].path|..]
                  && t2[j].level - t2[id].level == t[j].level - t[id].level
                  && t2[j] == t[j].(path := t2[j].path, level := t2[j].level))
            && (Descends(t2, j, id) <==> Descends(t, j, id))
            && t2[id].parentId == Value(dto.parentId.value)
  {
    AcceptedMoveIsMoveTo(t, id, dto, userId);
    var g := Edited(t, t[id], dto);
    var t2 := MoveTo(t, g);
    EditedAttaches(t, id, dto, userId);
    MoveToRow(t, g, id);
    MoveToRow(t, g, j);
    forall k | k in t && k != id ensures t2[k].parentId == t[k].parentId {
      MoveToRow(t, g, k);
    }
    SubtreeStable(t, t2, id, j);
    Acyclic(t, id);
    if Descends(t, j, id) {
      DescendsIsPrefix(t2, j, id);
    }
  }

  ghost predicate WithinDepth(t: Table) {
    forall j | j in t :: t[j].level <= MAX_LEVEL
  }

  /** The level that a folder gets below `target`. */
  function LevelBelow(t: Table, target: Option<Id>): int
    requires target.Some? ==> target.value in t
  {
    if target.Some? then t[target.value].level + 1 else 0
  }

  /** Only the moved folder's own new level is checked: the depth limit survives an accepted move
      exactly if every folder below it still fits when it is as far below its new place as before. */
  lemma DepthKeptExactly(t: Table, id: Id, dto: UpdateDto, userId: string)
    requires TableInv(t) && !UnsafeMove(t, id, dto, userId) && WithinDepth(t)
    requires Update(t, id, dto, userId).1.Success? && Moves(t[id], dto)
    ensures var target := Value(dto.parentId.value);
            && (target.Some? ==> target.value in t)
            && LevelBelow(t, target) <= MAX_LEVEL
            && (WithinDepth(Update(t, id, dto, userId).0) <==>
                  forall j | j in t && Descends(t, j, id) ::
                    LevelBelow(t, target) + (t[j].level - t[id].level) <= MAX_LEVEL)
  {
    var t2 := Update(t, id, dto, userId).0;
    AcceptedMoveIsMoveTo(t, id, dto, userId);
    MoveTouchesOnlySubtree(t, id, dto, userId, id);
    assert RowAgrees(t2, id);
    if Truthy(dto.parentId.value) {
      MoveTouchesOnlySubtree(t, id, dto, userId, Uuid(dto.parentId.value.value));
    }
    forall j | j in t
      ensures t2[j].level == if InSubtree(t, j, id) then t[j].level + (t2[id].level - t[id].level) else t[j].level
    {
      MoveTouchesOnlySubtree(t, id, dto, userId, j);
    }
  }

  // ---- moving back ----

  lemma MoveBackRow(t: Table, g: Folder, h: Folder, j: Id)
    requires PathInv(t) && g.id in t && Attaches(t, g) && PathInv(MoveTo(t, g)) && h.id == g.id && j in t
    requires h.path == t[g.id].path && h.level == t[g.id].level
    ensures MoveTo(MoveTo(t, g), h)[j]
         == if j == g.id then h.(ownerId := t[j].ownerId, featureCount := t[j].featureCount) else t[j]
  {
    var u := MoveTo(t, g);
    MoveToRow(t, g, j);
    MoveToRow(t, g, g.id);
    MoveToRow(u, h, j);
    forall k | k in t && k != g.id ensures u[k].parentId == t[k].parentId {
      MoveToRow(t, g, k);
    }
    SubtreeStable(t, u, g.id, j);
    if j != g.id && Descends(t, j, g.id) {
      var n := |t[g.id].path|;
      assert t[j].path == t[g.id].path + t[j].path[n..];
      assert (g.path + t[j].path[n..])[|g.path|..] == t[j].path[n..];
    }
  }

  predicate AcceptsChild(t: Table, parentId: Option<Id>) {
    parentId.Some? ==> parentId.value in t && t[parentId.value].level < MAX_LEVEL
  }

  /** A safe, accepted move of `id` that gives it another parent. */
  ghost predicate TakesNewParent(t: Table, id: Id, target: Option<Id>, userId: string) {
    && TableInv(t) && id in t
    && var dto := MoveRequest(t[id].version, target);
       var (u, r) := Update(t, id, dto, userId);
       !UnsafeMove(t, id, dto, userId) && r.Success? && id in u && u[id].parentId != t[id].parentId
  }

  lemma MovedRows(t: Table, id: Id, target: Option<Id>, userId: string)
    requires TakesNewParent(t, id, target, userId)
    ensures var u := Update(t, id, MoveRequest(t[id].version, target), userId).0;
            && TableInv(u) && Moves(t[id], MoveRequest(t[id].version, target))
            && u.Keys == t.Keys && u[id] == t[id].(parentId := u[id].parentId, path := u[id].path,
                                                   level := u[id].level, version := t[id].version + 1)
            && (forall j | j in t && j != id :: u[j].parentId == t[j].parentId && u[j].name == t[j].name)
  {
    var dto := MoveRequest(t[id].version, target);
    if !Moves(t[id], dto) {
      EditedAttaches(t, id, dto, userId);
    }
    AcceptedMoveIsMoveTo(t, id, dto, userId);
    var g := Edited(t, t[id], dto);
    forall j | j in t && j != id
      ensures MoveTo(t, g)[j].parentId == t[j].parentId && MoveTo(t, g)[j].name == t[j].name
    {
      MoveToRow(t, g, j);
    }
    MoveToRow(t, g, id);
  }

  lemma OldParentUntouched(t: Table, id: Id, target: Option<Id>, userId: string)
    requires TakesNewParent(t, id, target, userId) && t[id].parentId.Some?
    ensures var u := Update(t, id, MoveRequest(t[id].version, target), userId).0;
            var p := t[id].parentId.value;
            p in t && p in u && p != "" && u[p] == t[p] && !Descends(u, p, id)
  {
    var p := t[id].parentId.value;
    MovedRows(t, id, target, userId);
    assert RowAgrees(t, id);
    assert RowAgrees(t, p);
    MoveTouchesOnlySubtree(t, id, MoveRequest(t[id].version, target), userId, p);
    if InSubtree(t, p, id) {
      DescendsStep(t, id, p, id);
      Acyclic(t, id);
    }
  }

  lemma BackRefusal(t: Table, id: Id, target: Option<Id>, userId: string)
    requires TakesNewParent(t, id, target, userId)
    ensures var u := Update(t, id, MoveRequest(t[id].version, target), userId).0;
            var back := MoveRequest(t[id].version + 1, t[id].parentId);
            && id in u && Moves(u[id], back)
            && Refusal(u, id, back, userId) == (if AcceptsChild(t, t[id].parentId) then None else Some(DepthReached))
            && (Refusal(u, id, back, userId).None? ==>
                  Edited(u, u[id], back) == t[id].(version := t[id].version + 2))
  {
    var u := Update(t, id, MoveRequest(t[id].version, target), userId).0;
    MovedRows(t, id, target, userId);
    assert RowAgrees(t, id);
    if t[id].parentId.Some? {
      var p := t[id].parentId.value;
      OldParentUntouched(t, id, target, userId);
      assert RowAgrees(t, p);
      CanonicalSpelling(p);
      LikeSelectsDescendants(u, id, p);
      PathIsClean(t, p);
    }
  }

  lemma BackDoesNotClash(t: Table, id: Id, target: Option<Id>, userId: string,
                         oldPath: string, newPath: string, delta: int)
    requires TakesNewParent(t, id, target, userId)
    ensures var u := Update(t, id, MoveRequest(t[id].version, target), userId).0;
            !UniqueClash(RewriteSubtree(u, oldPath, newPath, delta), id, t[id].name, t[id].parentId)
  {
    var u := Update(t, id, MoveRequest(t[id].version, target), userId).0;
    MovedRows(t, id, target, userId);
    forall j | j in u && j != id && u[j].parentId == t[id].parentId && t[id].parentId.Some?
      ensures u[j].name != t[id].name
    {
      assert DistinctNames(t, id, j);
    }
    RewriteKeepsNames(u, oldPath, newPath, delta, id, t[id].name, t[id].parentId);
  }

  lemma MoveThereAndBack(t: Table, g: Folder, version: int)
    requires PathInv(t) && g.id in t && t[g.id].id == g.id && Attaches(t, g) && PathInv(MoveTo(t, g))
    ensures MoveTo(MoveTo(t, g), t[g.id].(version := version)) == t[g.id := t[g.id].(version := version)]
  {
    var h := t[g.id].(version := version);
    assert RowAgrees(t, g.id);
    forall j | j in t ensures MoveTo(MoveTo(t, g), h)[j] == t[g.id := h][j] {
      MoveBackRow(t, g, h, j);
    }
  }

  lemma BackRestoresRows(t: Table, id: Id, target: Option<Id>, userId: string)
    requires TakesNewParent(t, id, target, userId) && t[id].id == id
    ensures MoveTo(Update(t, id, MoveRequest(t[id].version, target), userId).0, t[id].(version := t[id].version + 2))
         == t[id := t[id].(version := t[id].version + 2)]
  {
    var dto := MoveRequest(t[id].version, target);
    MovedRows(t, id, target, userId);
    AcceptedMoveIsMoveTo(t, id, dto, userId);
    MoveThereAndBack(t, Edited(t, t[id], dto), t[id].version + 2);
  }

  lemma UpdateIsMoveTo(t: Table, id: Id, dto: UpdateDto, userId: string, g: Folder)
    requires Refusal(t, id, dto, userId).None? && Moves(t[id], dto) && g == Edited(t, t[id], dto) && g.id == id
    requires !UniqueClash(RewriteSubtree(t, t[id].path, g.path, g.level - t[id].level), id, g.name, g.parentId)
    ensures Update(t, id, dto, userId) == (MoveTo(t, g), Success(g))
  {
  }

  /** Moving a folder back to its old parent is accepted exactly when that parent is still shallow
      enough to be a target, and then restores every row except the folder's version counter. */
  lemma MoveBackRestores(t: Table, id: Id, target: Option<Id>, userId: string)
    requires TakesNewParent(t, id, target, userId)
    ensures var u := Update(t, id, MoveRequest(t[id].version, target), userId).0;
            var (w, r) := Update(u, id, MoveRequest(t[id].version + 1, t[id].parentId), userId);
            && (r.Success? <==> AcceptsChild(t, t[id].parentId))
            && (r.Success? ==> w == t[id := t[id].(version := t[id].version + 2)])
  {
    var h := t[id].(version := t[id].version + 2);
    var u := Update(t, id, MoveRequest(t[id].version, target), userId).0;
    var back := MoveRequest(t[id].version + 1, t[id].parentId);
    BackRefusal(t, id, target, userId);
    assert h.id == id by {
      assert RowAgrees(t, id);
    }
    if AcceptsChild(t, t[id].parentId) {
      BackDoesNotClash(t, id, target, userId, u[id].path, h.path, h.level - u[id].level);
      UpdateIsMoveTo(u, id, back, userId, h);
      BackRestoresRows(t, id, target, userId);
    }
  }

  // ---- inputs on which the invariant or the depth limit is lost ----

  function SampleRoot(id: Id, name: string): Folder {
    CreateRoot(id, name, "u", None, 0)
  }

  /** A single root folder moved under itself is accepted and ends with a path no parent explains. */
  lemma SelfMoveIsAccepted()
    ensures var t := map["a" := SampleRoot("a", "x")];
            var (t', r) := Update(t, "a", MoveRequest(1, Some("a")), "u");
            TableInv(t) && r.Success? && !PathInv(t')
  {
    var t := map["a" := SampleRoot("a", "x")];
    var dto := MoveRequest(1, Some("a"));
    assert t["a"].path == "root/" + "a";
    assert PathInv(t);
    CanonicalSpelling("a");
    Acyclic(t, "a");
    LikeSelectsDescendants(t, "a", "a");
    assert Refusal(t, "a", dto, "u").None?;
    var g := Edited(t, t["a"], dto);
    RewriteKeepsNames(t, t["a"].path, g.path, g.level, "a", "x", Some("a"));
    UpdateKeepsPathsExactly(t, "a", dto, "u");
  }

  /** A root folder is moved under its child, whose id is spelled in upper case: the cycle check does not
      see it, the lookup by value finds it, and both folders end in a cycle. */
  lemma DescendantSpelledOtherwise()
    ensures var a := SampleRoot("a", "x");
            var t := map["a" := a, "b" := CreateChild("b", "y", "a", a.path, 0, "u", None, 0)];
            var (t', r) := Update(t, "a", MoveRequest(1, Some("B")), "u");
            && TableInv(t) && r.Success? && "a" in t' && "b" in t'
            && t'["a"].parentId == Some("b") && t'["b"].parentId == Some("a") && !PathInv(t')
  {
    var a := SampleRoot("a", "x");
    var t := map["a" := a, "b" := CreateChild("b", "y", "a", a.path, 0, "u", None, 0)];
    var dto := MoveRequest(1, Some("B"));
    assert a.path == "root/" + "a";
    assert PathInv(t);
    assert Uuid("B") == "b";
    LikeSelectsDescendants(t, "a", "B");
    if Descends(t, "B", "a") {
      DescendsFirst(t, "B", "a");
    }
    assert Refusal(t, "a", dto, "u").None?;
    var g := Edited(t, t["a"], dto);
    RewriteKeepsNames(t, t["a"].path, g.path, g.level, "a", "x", Some("b"));
    DescendsStep(t, "b", "a", "a");
    UpdateKeepsPathsExactly(t, "a", dto, "u");
  }

  /** Moving a folder with a child to where its name is taken fails only after the child's path has
      been rewritten. */
  lemma ClashingMoveStrandsChildren()
    ensures var a, b := SampleRoot("a", "a"), SampleRoot("b", "x");
            var t := map["a" := a, "b" := b,
                         "c" := CreateChild("c", "c", "b", b.path, 0, "u", None, 0),
                         "d" := CreateChild("d", "x", "a", a.path, 0, "u", None, 0)];
            var (t', r) := Update(t, "b", MoveRequest(1, Some("a")), "u");
            TableInv(t) && r == Failure(UniqueViolation) && !PathInv(t')
  {
    var a, b := SampleRoot("a", "a"), SampleRoot("b", "x");
    var t := map["a" := a, "b" := b,
                 "c" := CreateChild("c", "c", "b", b.path, 0, "u", None, 0),
                 "d" := CreateChild("d", "x", "a", a.path, 0, "u", None, 0)];
    var dto := MoveRequest(1, Some("a"));
    assert PathInv(t);
    CanonicalSpelling("a");
    LikeSelectsDescendants(t, "b", "a");
    if Descends(t, "a", "b") {
      DescendsFirst(t, "a", "b");
    }
    assert Refusal(t, "b", dto, "u").None?;
    assert t["d"].parentId == Some("a") && t["c"].parentId == Some("b");
    assert UniqueClash(t, "b", "x", Some("a"));
    var g := Edited(t, t["b"], dto);
    RewriteKeepsNames(t, t["b"].path, g.path, g.level - t["b"].level, "b", "x", Some("a"));
    UpdateKeepsPathsExactly(t, "b", dto, "u");
  }

  /** `n` lower-case a's. */
  function As(n: nat): (id: Id)
    ensures |id| == n && (n > 0 ==> ValidId(id) && id[0] == 'a')
  {
    if n == 0 then "" else "a" + As(n - 1)
  }

  /** The request to create a folder inside `As(n)`, or a root folder for `n == 0`. */
  function InsideRequest(n: nat): CreateDto {
    CreateDto("x", if n == 0 then None else Some(As(n)), None, 0)
  }

  /** What `n` creates leave, each inside the folder created before. */
  function Nested(n: nat): Table {
    if n == 0 then map[] else Create(Nested(n - 1), As(n), InsideRequest(n - 1), "u").0
  }

  /** The row lies in the nest of depth `n`. */
  predicate InNest(f: Folder, n: nat) {
    && 0 < |f.id| <= n && f.id[0] == 'a' && f.name == "x" && "root/a" <= f.path && f.level <= n - 1
    && (f.parentId.Some? ==> |f.parentId.value| < n)
  }

  lemma {:induction false} NestedIsDeep(n: nat)
    requires 1 <= n <= MAX_LEVEL + 1
    ensures TableInv(Nested(n))
    ensures forall j | j in Nested(n) :: Nested(n)[j].id == j && InNest(Nested(n)[j], n)
    ensures As(n) in Nested(n) && Nested(n)[As(n)].level == n - 1
  {
    var t, dto := Nested(n - 1), InsideRequest(n - 1);
    if n > 1 {
      NestedIsDeep(n - 1);
      CanonicalSpelling(As(n - 1));
    }
    assert As(n) !in t;
    CreateKeepsInv(t, As(n), dto, "u");
    CreateAcceptedExactly(t, As(n), dto, "u");
    var u := Nested(n);
    assert n == 1 ==> As(1) == "a" + "" && u[As(1)].path == "root/" + "a";
    assert n > 1 ==> u[As(n)].path == t[As(n - 1)].path + "/" + As(n);
  }

  /** A root folder with a child moved into a childless folder one level above the limit: the move is
      safe and accepted, and the child ends below the limit. */
  lemma TooDeepMove(t: Table, id: Id, child: Id, target: Id)
    requires TableInv(t) && WithinDepth(t) && id in t && child in t && target in t
    requires t[id].parentId == None && t[child].parentId == Some(id)
    requires t[target].level == MAX_LEVEL - 1 && !HasChildren(t, target) && !InSubtree(t, target, id)
    ensures var (t', r) := Update(t, id, MoveRequest(t[id].version, Some(target)), "u");
            && !UnsafeMove(t, id, MoveRequest(t[id].version, Some(target)), "u")
            && r.Success? && TableInv(t') && !WithinDepth(t')
  {
    var dto := MoveRequest(t[id].version, Some(target));
    assert RowAgrees(t, target) && RowAgrees(t, id) && RowAgrees(t, child);
    CanonicalSpelling(target);
    UpdateAcceptedExactly(t, id, dto, "u");
    UpdateKeepsPathsExactly(t, id, dto, "u");
    DescendsStep(t, child, id, id);
    DepthKeptExactly(t, id, dto, "u");
  }

  lemma NotBelowRoot(t: Table, j: Id)
    requires PathInv(t) && "b" in t && t["b"].parentId == None && j in t && "root/a" <= t[j].path
    ensures !Descends(t, j, "b")
  {
    assert RowAgrees(t, "b") && t["b"].path == "root/" + "b";
    assert t["b"].path[5] == 'b' && t[j].path[5] == 'a';
    if Descends(t, j, "b") {
      DescendsIsPrefix(t, j, "b");
      assert false;
    }
  }

  /** A root folder "b" with a child "c", created in a table that holds neither. */
  function WithPair(t: Table): Table {
    Create(Create(t, "b", CreateDto("b", None, None, 0), "u").0, "c", CreateDto("c", Some("b"), None, 0), "u").0
  }

  lemma PairIsAdded(t: Table)
    requires TableInv(t) && "b" !in t && "c" !in t && (forall j | j in t :: t[j].name == "x")
    ensures var u := WithPair(t);
            && TableInv(u) && u.Keys == t.Keys + {"b", "c"} && (forall j | j in t :: u[j] == t[j])
            && u["b"].parentId == None && u["b"].level == 0
            && u["c"].parentId == Some("b") && u["c"].level == 1
  {
    var rootB, childC := CreateDto("b", None, None, 0), CreateDto("c", Some("b"), None, 0);
    CreateKeepsInv(t, "b", rootB, "u");
    CreateAcceptedExactly(t, "b", rootB, "u");
    var t1 := Create(t, "b", rootB, "u").0;
    CanonicalSpelling("b");
    assert forall j | j in t1 :: t1[j].name != "c";
    CreateKeepsInv(t1, "c", childC, "u");
    CreateAcceptedExactly(t1, "c", childC, "u");
  }

  lemma DeepMove(nest: Table, deepest: Id)
    requires TableInv(nest) && (forall j | j in nest :: nest[j].id == j && InNest(nest[j], MAX_LEVEL))
    requires deepest in nest && nest[deepest].level == MAX_LEVEL - 1 && |deepest| == MAX_LEVEL
    ensures var t := WithPair(nest);
            && TableInv(t) && WithinDepth(t) && "b" in t
            && var dto := MoveRequest(t["b"].version, Some(deepest));
               var (t', r) := Update(t, "b", dto, "u");
               !UnsafeMove(t, "b", dto, "u") && r.Success? && TableInv(t') && !WithinDepth(t')
  {
    PairIsAdded(nest);
    NotBelowRoot(WithPair(nest), deepest);
    TooDeepMove(WithPair(nest), "b", "c", deepest);
  }

  /** Such a table, built by creates alone: ten nested folders beside a root folder with one child. */
  lemma DeepMoveBreaksLimit()
    ensures var t := WithPair(Nested(10));
            && TableInv(t) && WithinDepth(t) && "b" in t
            && var dto := MoveRequest(t["b"].version, Some(As(10)));
               var (t', r) := Update(t, "b", dto, "u");
               !UnsafeMove(t, "b", dto, "u") && r.Success? && TableInv(t') && !WithinDepth(t')
  {
    NestedIsDeep(10);
    DeepMove(Nested(10), As(10));
  }
}
