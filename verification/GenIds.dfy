/** The numbering of an import.

    Rows of an import name themselves and the row they answer by arbitrary strings. The importer works
    on positions instead: the GenId of a string is one more than the position of the (last) row that
    has it as its id, 0 if none has. It climbs from a GenId to the root of its thread before anything
    is stored. This module compares that climb with the one FindCommentRootID makes on the stored
    rows, for every input: cycles, self-answers, duplicate ids and dangling parents included. */
module GenIds {
  import opened ParentLinks

  datatype Artran = Artran(
    id: string, rid: string, content: string, ua: string, ip: string,
    isCollapsed: string, isPending: string, isPinned: string, voteUp: string, voteDown: string,
    createdAt: string, updatedAt: string, nick: string, email: string, pageKey: string, siteName: string)

  /** "No parent", as an import writes it. */
  predicate Blank(rid: string) {
    rid == "" || rid == "0"
  }

  function GenId(rows: seq<Artran>, id: string): (g: nat)
    ensures g <= |rows|
    ensures g != 0 ==> rows[g - 1].id == id
  {
    if rows == [] then 0
    else if rows[|rows| - 1].id == id then |rows|
    else GenId(rows[..|rows| - 1], id)
  }

  lemma {:induction false} GenIdFinds(rows: seq<Artran>, i: nat)
    requires i < |rows|
    ensures GenId(rows, rows[i].id) > i
    decreases |rows|
  {
    var n := |rows| - 1;
    if rows[n].id != rows[i].id {
      assert rows[..n][i] == rows[i];
      GenIdFinds(rows[..n], i);
    }
  }

  predicate IsPosition(g: nat, n: nat) {
    0 < g <= n
  }

  function Positions(n: nat): set<nat> {
    set g: nat | g <= n && IsPosition(g, n)
  }

  /** The parent links between positions (counted from 1). */
  function GenLinks(rows: seq<Artran>): Links {
    map g | g in Positions(|rows|) :: GenId(rows, rows[g - 1].rid)
  }

  /** The climb of the importer: it ends at a blank parent, and on a cycle at the first repetition. A
      parent that names no row ends it with 0. */
  function GenWalkFrom(rows: seq<Artran>, g: nat, visited: set<nat>): nat
    requires g <= |rows|
    decreases Positions(|rows|) - visited
  {
    if g == 0 || g in visited || Blank(rows[g - 1].rid) then g
    else GenWalkFrom(rows, GenId(rows, rows[g - 1].rid), visited + {g})
  }

  function GenRoot(rows: seq<Artran>, rid: string): nat {
    GenWalkFrom(rows, GenId(rows, rid), {})
  }

  /** The row at g answers none, or one that is part of the import. */
  predicate IsClosed(rows: seq<Artran>, g: nat)
    requires 0 < g <= |rows|
  {
    Blank(rows[g - 1].rid) || GenId(rows, rows[g - 1].rid) != 0
  }

  /** A row that answers a row which is not part of the import. */
  predicate Dangles(rows: seq<Artran>, g: nat) {
    0 < g <= |rows| && !IsClosed(rows, g)
  }

  /** A row that answers none is not taken for an answer to a row with a blank name. */
  predicate MeansNone(rows: seq<Artran>, g: nat)
    requires 0 < g <= |rows|
  {
    Blank(rows[g - 1].rid) ==> GenId(rows, rows[g - 1].rid) == 0
  }

  predicate BlanksMeanNone(rows: seq<Artran>) {
    forall g: nat :: 0 < g <= |rows| ==> MeansNone(rows, g)
  }

  /** So it is if no row is named like "no parent". A row named "" does no harm where all blank parents
      are written "0". */
  lemma NoBlankIdsSuffice(rows: seq<Artran>)
    requires forall i {:trigger rows[i].id} :: 0 <= i < |rows| && Blank(rows[i].id) ==>
               forall j {:trigger rows[j].rid} :: 0 <= j < |rows| ==> rows[j].rid != rows[i].id
    ensures BlanksMeanNone(rows)
  {
    forall g: nat | 0 < g <= |rows|
      ensures MeansNone(rows, g)
    {
      var h := GenId(rows, rows[g - 1].rid);
      assert h != 0 ==> rows[h - 1].id == rows[g - 1].rid;
    }
  }

  /** The two climbs differ only where the chain dangles: there the importer has 0, the table walk the
      last row before the gap. */
  lemma {:induction false} GenWalkIsWalk(rows: seq<Artran>, g: nat, visited: set<nat>)
    requires BlanksMeanNone(rows) && g <= |rows|
    requires forall v :: v in visited ==> 0 < v <= |rows| && GenId(rows, rows[v - 1].rid) != 0
    ensures var w := WalkFrom(GenLinks(rows), g, visited);
            && w <= |rows|
            && GenWalkFrom(rows, g, visited) == if Dangles(rows, w) then 0 else w
    decreases Positions(|rows|) - visited
  {
    if g != 0 && g !in visited {
      var next := GenId(rows, rows[g - 1].rid);
      assert MeansNone(rows, g);
      if !Blank(rows[g - 1].rid) && next != 0 {
        GenWalkIsWalk(rows, next, visited + {g});
      }
    }
  }

  /** The chain of parents from rid up ends at a row that dangles. */
  predicate LeavesImport(rows: seq<Artran>, rid: string) {
    Dangles(rows, Walk(GenLinks(rows), GenId(rows, rid)))
  }

  // ---------------------------------------------------------------------------------------------
  // From positions to stored ids
  // ---------------------------------------------------------------------------------------------

  /** Row g of n rows that were stored with consecutive ids from base on; 0 for none. */
  function DbId(base: nat, n: nat, g: nat): nat {
    if 0 < g <= n then base + g - 1 else 0
  }

  ghost predicate LinkIsStored(l: Links, rows: seq<Artran>, base: nat, g: nat)
    requires 0 < g <= |rows|
  {
    Parent(l, base + g - 1) == DbId(base, |rows|, GenId(rows, rows[g - 1].rid))
  }

  /** The stored rows have the parent links of the import. */
  ghost predicate StoredLinks(l: Links, rows: seq<Artran>, base: nat) {
    forall g: nat :: 0 < g <= |rows| ==> LinkIsStored(l, rows, base, g)
  }

  lemma {:induction false} WalkOfStored(l: Links, rows: seq<Artran>, base: nat, g: nat, visited: set<nat>,
                                        visited': set<nat>)
    requires base > 0 && StoredLinks(l, rows, base) && g <= |rows|
    requires forall h: nat :: h <= |rows| && h != 0 ==> (h in visited <==> DbId(base, |rows|, h) in visited')
    ensures WalkFrom(GenLinks(rows), g, visited) <= |rows|
    ensures WalkFrom(l, DbId(base, |rows|, g), visited') == DbId(base, |rows|, WalkFrom(GenLinks(rows), g, visited))
    decreases Positions(|rows|) - visited
  {
    if g != 0 && g !in visited {
      var next := GenId(rows, rows[g - 1].rid);
      var x := DbId(base, |rows|, g);
      assert LinkIsStored(l, rows, base, g);
      if next != 0 {
        WalkOfStored(l, rows, base, next, visited + {g}, visited' + {x});
      }
    }
  }

  /** The stored root is right if and only if the two climbs agree before anything is stored. */
  lemma StoredRootAgrees(l: Links, rows: seq<Artran>, base: nat, rid: string)
    requires base > 0 && StoredLinks(l, rows, base)
    ensures DbId(base, |rows|, GenRoot(rows, rid)) == Walk(l, DbId(base, |rows|, GenId(rows, rid))) <==>
            GenRoot(rows, rid) == Walk(GenLinks(rows), GenId(rows, rid))
  {
    WalkOfStored(l, rows, base, GenId(rows, rid), {}, {});
    GenWalkInRange(rows, GenId(rows, rid), {});
  }

  lemma {:induction false} GenWalkInRange(rows: seq<Artran>, g: nat, visited: set<nat>)
    requires g <= |rows|
    ensures GenWalkFrom(rows, g, visited) <= |rows|
    decreases Positions(|rows|) - visited
  {
    if g != 0 && g !in visited && !Blank(rows[g - 1].rid) {
      assert IsPosition(g, |rows|);
      GenWalkInRange(rows, GenId(rows, rows[g - 1].rid), visited + {g});
    }
  }

  /** The root the importer stores for an answer to rid is the root that FindCommentRootID finds from
      the stored parent if and only if the chain of rid does not end at a row that dangles. On cycles
      both stop at the same row. */
  lemma StoredRootIsWalk(l: Links, rows: seq<Artran>, base: nat, rid: string)
    requires base > 0 && BlanksMeanNone(rows) && StoredLinks(l, rows, base)
    ensures DbId(base, |rows|, GenRoot(rows, rid)) == Walk(l, DbId(base, |rows|, GenId(rows, rid))) <==>
            !LeavesImport(rows, rid)
  {
    GenWalkIsWalk(rows, GenId(rows, rid), {});
    WalkOfStored(l, rows, base, GenId(rows, rid), {}, {});
  }

  /** Every parent that is named is part of the import. */
  predicate RidsClosed(rows: seq<Artran>) {
    forall g: nat :: 0 < g <= |rows| ==> IsClosed(rows, g)
  }

  /** With closed parents no chain dangles, so every stored root is right. */
  lemma ClosedRootsAreRight(l: Links, rows: seq<Artran>, base: nat, rid: string)
    requires base > 0 && BlanksMeanNone(rows) && RidsClosed(rows) && StoredLinks(l, rows, base)
    ensures DbId(base, |rows|, GenRoot(rows, rid)) == Walk(l, DbId(base, |rows|, GenId(rows, rid)))
  {
    StoredRootIsWalk(l, rows, base, rid);
  }

  // ---------------------------------------------------------------------------------------------
  // Which files get all their roots right
  // ---------------------------------------------------------------------------------------------

  /** Row g has a blank parent that some other row is named after, and is not one of two rows that name
      each other so. */
  predicate Breaks(rows: seq<Artran>, g: nat)
    requires 0 < g <= |rows|
  {
    var h := GenId(rows, rows[g - 1].rid);
    && Blank(rows[g - 1].rid) && h != 0 && h != g
    && !(Blank(rows[h - 1].rid) && GenId(rows, rows[h - 1].rid) == g)
  }

  /** What row k answers is in the file, answers something in the file (or nothing), and does not break. */
  predicate AnswersSound(rows: seq<Artran>, k: nat)
    requires k < |rows|
  {
    var g := GenId(rows, rows[k].rid);
    g == 0 || (IsClosed(rows, g) && !Breaks(rows, g))
  }

  predicate RootAgrees(rows: seq<Artran>, k: nat)
    requires k < |rows|
  {
    GenRoot(rows, rows[k].rid) == Walk(GenLinks(rows), GenId(rows, rows[k].rid))
  }

  predicate AllAnswersSound(rows: seq<Artran>) {
    forall k: nat :: k < |rows| ==> AnswersSound(rows, k)
  }

  predicate AllRootsAgree(rows: seq<Artran>) {
    forall k: nat :: k < |rows| ==> RootAgrees(rows, k)
  }

  predicate StepIs(rows: seq<Artran>, gl: Links, g: nat)
    requires 0 < g <= |rows|
  {
    Parent(gl, g) == GenId(rows, rows[g - 1].rid)
  }

  ghost predicate AreGenLinks(rows: seq<Artran>, gl: Links) {
    forall g: nat :: 0 < g <= |rows| ==> StepIs(rows, gl, g)
  }

  lemma GenLinksStep(rows: seq<Artran>, g: nat)
    requires 0 < g <= |rows|
    ensures StepIs(rows, GenLinks(rows), g)
  {
    assert IsPosition(g, |rows|);
  }

  lemma GenLinksAreGenLinks(rows: seq<Artran>)
    ensures AreGenLinks(rows, GenLinks(rows))
  {
    forall g: nat | 0 < g <= |rows|
      ensures StepIs(rows, GenLinks(rows), g)
    {
      GenLinksStep(rows, g);
    }
  }

  lemma GenLinkStays(rows: seq<Artran>, g: nat)
    requires g in GenLinks(rows)
    ensures GenLinks(rows)[g] == 0 || GenLinks(rows)[g] in GenLinks(rows)
  {
    assert IsPosition(GenLinks(rows)[g], |rows|) <==> GenLinks(rows)[g] != 0;
  }

  predicate IsSoundRow(rows: seq<Artran>, g: nat) {
    g == 0 || (g <= |rows| && IsClosed(rows, g) && !Breaks(rows, g))
  }

  predicate NamesParent(rows: seq<Artran>, g: nat) {
    0 < g <= |rows| && !Blank(rows[g - 1].rid)
  }

  lemma {:induction false} SoundClimb(rows: seq<Artran>, gl: Links, g: nat, visited: set<nat>)
    requires AllAnswersSound(rows) && AreGenLinks(rows, gl) && IsSoundRow(rows, g)
    requires forall v :: v in visited ==> NamesParent(rows, v)
    ensures g <= |rows| && GenWalkFrom(rows, g, visited) == WalkFrom(gl, g, visited)
    decreases Positions(|rows|) - visited
  {
    if g != 0 && g !in visited {
      assert StepIs(rows, gl, g) && IsPosition(g, |rows|);
      var h := GenId(rows, rows[g - 1].rid);
      if !Blank(rows[g - 1].rid) {
        assert AnswersSound(rows, g - 1) && NamesParent(rows, g);
        SoundClimb(rows, gl, h, visited + {g});
      } else if h != 0 {
        BlankPairStops(rows, gl, g, h, visited);
      }
    }
  }

  /** From a blank row back to itself, over at most one other blank row. */
  lemma BlankPairStops(rows: seq<Artran>, gl: Links, g: nat, h: nat, visited: set<nat>)
    requires 0 < g <= |rows| && 0 < h <= |rows| && StepIs(rows, gl, g) && StepIs(rows, gl, h)
    requires Blank(rows[g - 1].rid) && h == GenId(rows, rows[g - 1].rid) && !Breaks(rows, g)
    requires g !in visited && forall v :: v in visited ==> NamesParent(rows, v)
    ensures WalkFrom(gl, g, visited) == g
  {
    if h == g {
      assert WalkFrom(gl, g, visited) == WalkFrom(gl, g, visited + {g});
    } else {
      assert !NamesParent(rows, h);
      assert WalkFrom(gl, g, visited) == WalkFrom(gl, h, visited + {g});
      assert WalkFrom(gl, h, visited + {g}) == WalkFrom(gl, g, visited + {g} + {h});
    }
  }

  lemma {:induction false} UpInRange(rows: seq<Artran>, gl: Links, g: nat, n: nat)
    requires AreGenLinks(rows, gl) && g <= |rows|
    ensures Up(gl, g, n) <= |rows|
    decreases n
  {
    if n > 0 {
      if g == 0 {
        UpFromZero(gl, n);
      } else {
        assert StepIs(rows, gl, g);
        UpInRange(rows, gl, Parent(gl, g), n - 1);
      }
    }
  }

  /** Row y and the j - 1 rows above it name their parents, the next one is blank: there the climb ends. */
  ghost predicate FirstBlankAt(rows: seq<Artran>, gl: Links, y: nat, j: nat) {
    && 0 < Up(gl, y, j) <= |rows| && !NamesParent(rows, Up(gl, y, j))
    && forall i: nat :: i < j ==> NamesParent(rows, Up(gl, y, i))
  }

  lemma {:induction false} ClimbEndsAtBlank(rows: seq<Artran>, gl: Links, y: nat, j: nat, visited: set<nat>)
    requires AreGenLinks(rows, gl) && 0 < y <= |rows| && FirstBlankAt(rows, gl, y, j)
    requires forall i: nat :: i <= j ==> Up(gl, y, i) !in visited
    ensures GenWalkFrom(rows, y, visited) == Up(gl, y, j)
    decreases j
  {
    assert Up(gl, y, 0) == y;
    if j > 0 {
      assert NamesParent(rows, Up(gl, y, 0)) && StepIs(rows, gl, y) && IsPosition(y, |rows|);
      var next := Parent(gl, y);
      forall i: nat | i <= j - 1
        ensures Up(gl, next, i) == Up(gl, y, i + 1) && Up(gl, next, i) !in visited + {y}
      {
        NoReturnBeforeBlank(rows, gl, y, j, i + 1);
      }
      assert j == 1 || NamesParent(rows, Up(gl, y, 1));
      assert Up(gl, y, 1) == Up(gl, next, 0) == next;
      ClimbEndsAtBlank(rows, gl, next, j - 1, visited + {y});
    }
  }

  lemma NoReturnBeforeBlank(rows: seq<Artran>, gl: Links, y: nat, j: nat, i: nat)
    requires FirstBlankAt(rows, gl, y, j) && 0 < i <= j
    ensures Up(gl, y, i) != y
  {
    UpAdd(gl, y, i, j - i);
    assert NamesParent(rows, Up(gl, y, j - i));
  }

  lemma {:induction false} FindBlank(rows: seq<Artran>, gl: Links, y: nat, n: nat) returns (j: nat)
    requires 0 < Up(gl, y, n) <= |rows| && !NamesParent(rows, Up(gl, y, n))
    requires forall i: nat :: i <= n ==> 0 < Up(gl, y, i) <= |rows|
    ensures j <= n && FirstBlankAt(rows, gl, y, j)
    decreases n
  {
    assert Up(gl, y, 0) == y;
    if !NamesParent(rows, y) {
      j := 0;
    } else {
      var next := Parent(gl, y);
      assert forall i: nat :: Up(gl, y, i + 1) == Up(gl, next, i);
      j := FindBlank(rows, gl, next, n - 1);
      j := j + 1;
      forall i: nat | i < j
        ensures NamesParent(rows, Up(gl, y, i))
      {
        if i > 0 { assert Up(gl, y, i) == Up(gl, next, i - 1); }
      }
    }
  }

  lemma OnCycleIsOwnRoot(l: Links, x: nat)
    requires OnCycle(l, x)
    ensures Walk(l, x) == x
  {
    assert RootAt(l, x, x, 0);
    WalkIsRoot(l, x, x);
  }

  /** An answer to a row x that is on a cycle with a blank row, and not blank itself, gets a wrong root. */
  lemma CycleWithBlankBreaks(rows: seq<Artran>, gl: Links, x: nat, n: nat, rid: string)
    requires AreGenLinks(rows, gl) && NamesParent(rows, x) && OnCycle(gl, x)
    requires Up(gl, x, n) <= |rows| && !NamesParent(rows, Up(gl, x, n)) && GenId(rows, rid) == x
    ensures GenRoot(rows, rid) != Walk(gl, GenId(rows, rid))
  {
    var p: nat :| p >= 1 && Up(gl, x, p) == x;
    forall i: nat
      ensures 0 < Up(gl, x, i) <= |rows|
    {
      CycleHasNoEnd(gl, x, p, i);
      UpInRange(rows, gl, x, i);
    }
    var j := FindBlank(rows, gl, x, n);
    ClimbEndsAtBlank(rows, gl, x, j, {});
    OnCycleIsOwnRoot(gl, x);
  }

  lemma OnCycleUp(l: Links, g: nat)
    requires OnCycle(l, g)
    ensures OnCycle(l, Parent(l, g)) && exists n: nat :: Up(l, Parent(l, g), n) == g
  {
    var h := Parent(l, g);
    var n: nat :| n >= 1 && Up(l, g, n) == g;
    assert Up(l, h, n - 1) == g;
    UpAdd(l, g, n, 1);
    assert Up(l, g, 1) == Up(l, h, 0) == h;
    assert Up(l, g, n + 1) == Up(l, h, n);
    CycleHasNoEnd(l, g, n, 1);
  }

  /** A row whose blank parent is taken for another row, and which is on no cycle, gives every answer to it
      a wrong root. */
  lemma BlankParentBreaksRoots(rows: seq<Artran>, g: nat, rid: string)
    requires 0 < g <= |rows| && Blank(rows[g - 1].rid) && GenId(rows, rows[g - 1].rid) != 0
    requires !OnCycle(GenLinks(rows), g) && GenId(rows, rid) == g
    ensures GenRoot(rows, rid) != Walk(GenLinks(rows), GenId(rows, rid))
  {
    GenLinksStep(rows, g);
    WalkIsRoot(GenLinks(rows), g, g);
  }

  /** If row g breaks and is on a cycle, some row on that cycle has a wrong root. */
  lemma BreakOnCycle(rows: seq<Artran>, gl: Links, g: nat) returns (k: nat)
    requires AreGenLinks(rows, gl) && 0 < g <= |rows| && Breaks(rows, g) && OnCycle(gl, g)
    ensures k < |rows| && GenRoot(rows, rows[k].rid) != Walk(gl, GenId(rows, rows[k].rid))
  {
    var h := GenId(rows, rows[g - 1].rid);
    assert StepIs(rows, gl, g) && StepIs(rows, gl, h);
    OnCycleUp(gl, g);
    var n: nat :| Up(gl, h, n) == g;
    if !Blank(rows[h - 1].rid) {
      k := g - 1;
      CycleWithBlankBreaks(rows, gl, h, n, rows[k].rid);
    } else {
      k := h - 1;
      var m := GenId(rows, rows[k].rid);
      OnCycleUp(gl, h);
      assert StepIs(rows, gl, m);
      BlankRunEnds(rows, gl, g, h, m, n);
      var n': nat :| Up(gl, m, n') == h;
      CycleWithBlankBreaks(rows, gl, m, n', rows[k].rid);
    }
  }

  /** There are two blank names only, so a third blank parent names one of the two rows before. */
  lemma BlankNamesRepeat(rows: seq<Artran>, g: nat, h: nat, m: nat)
    requires 0 < g <= |rows| && 0 < h <= |rows| && 0 < m <= |rows|
    requires h == GenId(rows, rows[g - 1].rid) && m == GenId(rows, rows[h - 1].rid)
    requires Blank(rows[g - 1].rid) && Blank(rows[h - 1].rid) && Blank(rows[m - 1].rid)
    ensures GenId(rows, rows[m - 1].rid) in {h, m}
  {
    var b1, b2, b3 := rows[g - 1].rid, rows[h - 1].rid, rows[m - 1].rid;
    assert b3 == b1 || b3 == b2 || b1 == b2;
    if b1 == b2 {
      assert h == m;
    }
  }

  /** So after two blank parents on a cycle the third row names its parent. */
  lemma BlankRunEnds(rows: seq<Artran>, gl: Links, g: nat, h: nat, m: nat, n: nat)
    requires 0 < g <= |rows| && 0 < h <= |rows| && 0 < m <= |rows| && g != h && g != m
    requires StepIs(rows, gl, h) && StepIs(rows, gl, m)
    requires h == GenId(rows, rows[g - 1].rid) && m == GenId(rows, rows[h - 1].rid)
    requires Blank(rows[g - 1].rid) && Blank(rows[h - 1].rid) && Up(gl, h, n) == g
    ensures NamesParent(rows, m)
  {
    if Blank(rows[m - 1].rid) {
      BlankNamesRepeat(rows, g, h, m);
      TwoRowsStay(gl, h, m, n);
    }
  }

  lemma TwoRowsStay(l: Links, h: nat, m: nat, n: nat)
    requires Parent(l, h) == m && Parent(l, m) in {h, m}
    ensures Up(l, h, n) in {h, m}
  {
    StaysIn(l, {h, m}, h, n);
  }

  /** For every file: all answers get the root that FindCommentRootID finds, if and only if every row that
      is answered has its own parent in the file (or none), and no such row has a blank parent that another
      row is named after (but for two rows that name each other). */
  lemma RootsAgree(rows: seq<Artran>)
    ensures AllRootsAgree(rows) <==> AllAnswersSound(rows)
  {
    var gl := GenLinks(rows);
    GenLinksAreGenLinks(rows);
    if AllAnswersSound(rows) {
      forall k: nat | k < |rows|
        ensures RootAgrees(rows, k)
      {
        assert AnswersSound(rows, k);
        SoundClimb(rows, gl, GenId(rows, rows[k].rid), {});
      }
    } else {
      var k: nat :| k < |rows| && !AnswersSound(rows, k);
      var bad := UnsoundAnswer(rows, k);
      assert !RootAgrees(rows, bad);
    }
  }

  lemma UnsoundAnswer(rows: seq<Artran>, k: nat) returns (bad: nat)
    requires k < |rows| && !AnswersSound(rows, k)
    ensures bad < |rows| && !RootAgrees(rows, bad)
  {
    var gl, g := GenLinks(rows), GenId(rows, rows[k].rid);
    GenLinksAreGenLinks(rows);
    assert StepIs(rows, gl, g);
    bad := k;
    if IsClosed(rows, g) {
      if OnCycle(gl, g) {
        bad := BreakOnCycle(rows, gl, g);
      } else {
        BlankParentBreaksRoots(rows, g, rows[k].rid);
      }
    } else {
      DanglingBreaksRoots(rows, g, rows[k].rid);
    }
  }

  /** A row that dangles gives every answer to it root 0, where the walk on the table gives that row. */
  lemma DanglingBreaksRoots(rows: seq<Artran>, g: nat, rid: string)
    requires 0 < g <= |rows| && !IsClosed(rows, g) && GenId(rows, rid) == g
    ensures GenRoot(rows, rid) == 0 && Walk(GenLinks(rows), GenId(rows, rid)) == g
  {
    GenLinksStep(rows, g);
    assert IsPosition(g, |rows|);
    assert GenWalkFrom(rows, g, {}) == GenWalkFrom(rows, 0, {g});
  }

  lemma GenIdSnoc(rows: seq<Artran>, row: Artran, id: string)
    ensures GenId(rows + [row], id) == if row.id == id then |rows| + 1 else GenId(rows, id)
  {
    assert (rows + [row])[..|rows|] == rows;
  }

  lemma GenIdOfThree(r1: Artran, r2: Artran, r3: Artran, id: string)
    ensures GenId([r1, r2, r3], id) ==
              if r3.id == id then 3 else if r2.id == id then 2 else if r1.id == id then 1 else 0
  {
    assert [r1, r2, r3] == [r1, r2] + [r3] && [r1, r2] == [r1] + [r2] && [r1] == [] + [r1];
    GenIdSnoc([r1, r2], r3, id);
    GenIdSnoc([r1], r2, id);
    GenIdSnoc([], r1, id);
  }

  lemma GenIdOfTwo(r1: Artran, r2: Artran, id: string)
    ensures GenId([r1, r2], id) == if r2.id == id then 2 else if r1.id == id then 1 else 0
  {
    assert [r1, r2] == [r1] + [r2] && [r1] == [] + [r1];
    GenIdSnoc([r1], r2, id);
    GenIdSnoc([], r1, id);
  }

  /** A row whose parent is not in the file, and an answer to it. */
  lemma AnswerToDangling(r1: Artran, r2: Artran)
    requires r1.id == "a" && r1.rid == "x" && r2.id == "b" && r2.rid == "a"
    ensures !AllAnswersSound([r1, r2])
  {
    GenIdOfTwo(r1, r2, "a");
    GenIdOfTwo(r1, r2, "x");
    assert !AnswersSound([r1, r2], 1);
  }

  lemma GenIdOfFour(r1: Artran, r2: Artran, r3: Artran, r4: Artran, id: string)
    requires r1.id == "a" && r2.id == "0" && r3.id == "c" && r4.id == "d"
    ensures GenId([r1, r2, r3, r4], id) ==
              if id == "d" then 4 else if id == "c" then 3 else if id == "0" then 2 else if id == "a" then 1 else 0
  {
    GenIdOfThree(r1, r2, r3, id);
    GenIdSnoc([r1, r2, r3], r4, id);
    assert [r1, r2, r3] + [r4] == [r1, r2, r3, r4];
  }

  /** A file with closed parents and a row named "0": "no parent" is taken for an answer to it when links
      are stored, but not when roots are sought. */
  lemma BlankIdBreaksRoots(r1: Artran, r2: Artran, r3: Artran, r4: Artran)
    requires r1.id == "a" && r2.id == "0" && r3.id == "c" && r4.id == "d"
    requires r1.rid == "0" && r2.rid == "c" && r3.rid == "" && r4.rid == "a"
    ensures var rows := [r1, r2, r3, r4];
            && RidsClosed(rows) && !AllAnswersSound(rows)
            && GenRoot(rows, "a") == 1
            && Walk(GenLinks(rows), GenId(rows, "a")) == 3
  {
    GenIdOfFour(r1, r2, r3, r4, "a");
    GenIdOfFour(r1, r2, r3, r4, "0");
    GenIdOfFour(r1, r2, r3, r4, "c");
    GenIdOfFour(r1, r2, r3, r4, "");
    ZeroNamesParent([r1, r2, r3, r4]);
    assert !AnswersSound([r1, r2, r3, r4], 3);
  }

  lemma ZeroNamesParent(rows: seq<Artran>)
    requires |rows| == 4 && rows[0].rid == "0" && rows[1].rid == "c" && rows[2].rid == "" && rows[3].rid == "a"
    requires GenId(rows, "a") == 1 && GenId(rows, "0") == 2 && GenId(rows, "c") == 3 && GenId(rows, "") == 0
    ensures RidsClosed(rows) && !AnswersSound(rows, 3)
    ensures GenRoot(rows, "a") == 1 && Walk(GenLinks(rows), 1) == 3
  {
    forall g: nat | 0 < g <= 4
      ensures IsClosed(rows, g)
    {
      assert g == 1 || g == 2 || g == 3 || g == 4;
    }
    ZeroNamesRoot(rows);
  }

  lemma ZeroNamesRoot(rows: seq<Artran>)
    requires |rows| == 4 && rows[0].rid == "0" && rows[1].rid == "c" && rows[2].rid == ""
    requires GenId(rows, "0") == 2 && GenId(rows, "c") == 3 && GenId(rows, "") == 0
    ensures Walk(GenLinks(rows), 1) == 3
  {
    GenLinksStep(rows, 1);
    GenLinksStep(rows, 2);
    GenLinksStep(rows, 3);
    TwoStepsUp(GenLinks(rows), 1, 2, 3);
  }

  lemma TwoStepsUp(l: Links, x: nat, y: nat, z: nat)
    requires z != 0 && Parent(l, x) == y && Parent(l, y) == z && Parent(l, z) == 0 && x != 0
    ensures Walk(l, x) == z
  {
    assert Up(l, x, 2) == Up(l, y, 1) == Up(l, z, 0) == z;
    assert RootAt(l, x, z, 2);
    WalkIsRoot(l, x, z);
  }
}
