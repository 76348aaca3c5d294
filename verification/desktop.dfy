/** The desktop icon grid: which projects get an icon, the column-major slot
    of each icon, and the position table kept across project-list changes. */
module Desktop {
  import opened Wrappers
  import opened Types
  import opened Geometry
  import opened Arith
  import Text

  const IconWidth := 90
  const IconHeight := 90
  const GapX := 16
  const GapY := 8
  const Padding := 16

  /** Horizontal and vertical distance between neighbouring slots. */
  const ColumnPitch := IconWidth + GapX
  const RowPitch := IconHeight + GapY

  /** Icon positions by project id. */
  type Positions = map<string, Point>

  // ---------------------------------------------------------------------
  // Which projects are on the desktop
  // ---------------------------------------------------------------------

  /** The sign-in and editor windows never get an icon; the about-me
      document only once it has been saved to the backend. */
  predicate OnDesktop(p: Project) {
    p.id != "login" && p.id != "admin-panel" && (p.id != "about-me" || p.isFirestore)
  }

  /** `desktopItems`. */
  function DesktopItems(projects: seq<Project>): (r: seq<Project>)
    ensures |r| <= |projects|
    ensures forall p :: p in r <==> p in projects && OnDesktop(p)
    ensures forall i :: 0 <= i < |r| ==> r[i].id != "login" && r[i].id != "admin-panel"
    ensures forall i :: 0 <= i < |r| && r[i].id == "about-me" ==> r[i].isFirestore
  {
    if |projects| == 0 then []
    else if OnDesktop(projects[0]) then [projects[0]] + DesktopItems(projects[1..])
    else DesktopItems(projects[1..])
  }

  /** The filter keeps the relative order of the projects it keeps. */
  lemma {:induction false} DesktopItemsOrder(projects: seq<Project>, xs: seq<Project>)
    ensures DesktopItems(xs + projects) == DesktopItems(xs) + DesktopItems(projects)
    decreases |xs|
  {
    if |xs| == 0 {
      assert xs + projects == projects;
    } else {
      var x, rest := xs[0], xs[1..];
      assert xs == [x] + rest;
      assert xs + projects == [x] + (rest + projects);
      DesktopItemsOrder(projects, rest);
      ItemsCons(x, rest + projects);
      ItemsCons(x, rest);
      Text.AppendAssoc(IconOf(x), DesktopItems(rest), DesktopItems(projects));
    }
  }

  /** The project itself when it gets an icon, nothing otherwise. */
  function IconOf(x: Project): seq<Project> {
    if OnDesktop(x) then [x] else []
  }

  lemma ItemsCons(x: Project, rest: seq<Project>)
    ensures DesktopItems([x] + rest) == IconOf(x) + DesktopItems(rest)
  {
    assert ([x] + rest)[0] == x && ([x] + rest)[1..] == rest;
  }

  function Ids(items: seq<Project>): (r: seq<string>)
    ensures |r| == |items| && forall i :: 0 <= i < |items| ==> r[i] == items[i].id
  {
    seq(|items|, i requires 0 <= i < |items| => items[i].id)
  }

  // ---------------------------------------------------------------------
  // Slots
  // ---------------------------------------------------------------------

  /** How many icons fit in one column of a desktop `height` pixels tall
      (`Math.floor` of a positive divisor is Euclidean division). */
  function MaxPerColumn(height: int): int {
    (height - Padding * 2 + GapY) / RowPitch
  }

  /** A full column fits inside the padding, and one more icon would not. */
  lemma ColumnFits(height: int)
    requires MaxPerColumn(height) > 0
    ensures var m := MaxPerColumn(height);
            && Padding + (m - 1) * RowPitch + IconHeight + Padding <= height
            && Padding + m * RowPitch + IconHeight + Padding > height
  {
  }

  /** The position of slot `i`, filling columns top to bottom, left to right. */
  function Slot(i: nat, m: int): (p: Point)
    requires m > 0
    ensures p.x >= Padding && p.y >= Padding
  {
    Point(Padding + (i / m) * ColumnPitch, Padding + (i % m) * RowPitch)
  }

  /** The slot index a position on the grid belongs to. */
  function SlotIndex(p: Point, m: int): int
    requires m > 0
  {
    ((p.x - Padding) / ColumnPitch) * m + (p.y - Padding) / RowPitch
  }

  /** Reading a slot's position back gives its index, so no two slot
      indices share a position. */
  lemma SlotIndexOfSlot(i: nat, m: int)
    requires m > 0
    ensures SlotIndex(Slot(i, m), m) == i
  {
    var col, row := i / m, i % m;
    assert (col * ColumnPitch) / ColumnPitch == col;
    assert (row * RowPitch) / RowPitch == row;
  }

  lemma SlotInjective(i: nat, j: nat, m: int)
    requires m > 0 && i != j
    ensures Slot(i, m) != Slot(j, m)
  {
    SlotIndexOfSlot(i, m);
    SlotIndexOfSlot(j, m);
  }

  /** The slot after `i` lies directly below it, or at the top of the next
      column once a column is full. */
  lemma SlotSuccessor(i: nat, m: int)
    requires m > 0
    ensures (i + 1) % m != 0 ==> Slot(i + 1, m) == Point(Slot(i, m).x, Slot(i, m).y + RowPitch)
    ensures (i + 1) % m == 0 ==> Slot(i + 1, m) == Point(Slot(i, m).x + ColumnPitch, Padding)
  {
    var q, r := i / m, i % m;
    assert i == q * m + r;
    if r + 1 < m {
      assert i + 1 == q * m + (r + 1);
      DivModUnique(i + 1, m, q, r + 1);
      assert (r + 1) * RowPitch == r * RowPitch + RowPitch;
    } else {
      assert i + 1 == (q + 1) * m + 0;
      DivModUnique(i + 1, m, q + 1, 0);
      assert (q + 1) * ColumnPitch == q * ColumnPitch + ColumnPitch;
    }
  }

  // ---------------------------------------------------------------------
  // The position table
  // ---------------------------------------------------------------------

  /** The previous positions of ids still on the desktop. */
  function Survivors(prev: Positions, ids: seq<string>): (r: Positions)
    ensures forall id :: id in r <==> id in prev && id in ids
    ensures forall id :: id in r ==> r[id] == prev[id]
  {
    map id | id in prev && id in ids :: prev[id]
  }

  /** `desktopItems.filter(item => !positionedIds.includes(item.id))`. */
  function Unpositioned(ids: seq<string>, kept: Positions): (r: seq<string>)
    ensures |r| <= |ids|
    ensures forall id :: id in r <==> id in ids && id !in kept
  {
    if |ids| == 0 then []
    else if ids[0] in kept then Unpositioned(ids[1..], kept)
    else [ids[0]] + Unpositioned(ids[1..], kept)
  }

  /** The id itself when it has no kept position, nothing otherwise. */
  function NewOf(id: string, kept: Positions): seq<string> {
    if id in kept then [] else [id]
  }

  lemma UnpositionedCons(id: string, rest: seq<string>, kept: Positions)
    ensures Unpositioned([id] + rest, kept) == NewOf(id, kept) + Unpositioned(rest, kept)
  {
    assert ([id] + rest)[0] == id && ([id] + rest)[1..] == rest;
  }

  /** The new items keep the order of the desktop items, so they take the
      free slots in list order. */
  lemma {:induction false} UnpositionedOrder(xs: seq<string>, ys: seq<string>, kept: Positions)
    ensures Unpositioned(xs + ys, kept) == Unpositioned(xs, kept) + Unpositioned(ys, kept)
    decreases |xs|
  {
    if |xs| == 0 {
      assert xs + ys == ys;
    } else {
      var x, rest := xs[0], xs[1..];
      assert xs == [x] + rest;
      assert xs + ys == [x] + (rest + ys);
      UnpositionedOrder(rest, ys, kept);
      UnpositionedCons(x, rest + ys, kept);
      UnpositionedCons(x, rest, kept);
      Text.AppendAssoc(NewOf(x, kept), Unpositioned(rest, kept), Unpositioned(ys, kept));
    }
  }

  /** The `forEach` that gives each new item the next slot. */
  function Assign(pos: Positions, ids: seq<string>, next: nat, m: int): (r: Positions)
    requires m > 0
    ensures forall id :: id in r <==> id in pos || id in ids
    ensures forall id :: id in pos && id !in ids ==> r[id] == pos[id]
    decreases |ids|
  {
    if |ids| == 0 then pos
    else Assign(pos[ids[0] := Slot(next, m)], ids[1..], next + 1, m)
  }

  predicate NoDup(ids: seq<string>) {
    forall i, j :: 0 <= i < j < |ids| ==> ids[i] != ids[j]
  }

  /** Distinct new items take consecutive slots in list order. */
  lemma AssignSlots(pos: Positions, ids: seq<string>, next: nat, m: int)
    requires m > 0 && NoDup(ids)
    ensures forall k :: 0 <= k < |ids| ==>
              ids[k] in Assign(pos, ids, next, m) && Assign(pos, ids, next, m)[ids[k]] == Slot(next + k, m)
  {
    forall k | 0 <= k < |ids|
      ensures ids[k] in Assign(pos, ids, next, m) && Assign(pos, ids, next, m)[ids[k]] == Slot(next + k, m)
    {
      AssignSlot(pos, ids, next, m, k, next + k);
    }
  }

  /** The `k`-th of distinct new items takes slot `n`, which is `next + k`. */
  lemma {:induction false} AssignSlot(pos: Positions, ids: seq<string>, next: nat, m: int, k: nat, n: nat)
    requires m > 0 && NoDup(ids) && k < |ids| && n == next + k
    ensures ids[k] in Assign(pos, ids, next, m) && Assign(pos, ids, next, m)[ids[k]] == Slot(n, m)
    decreases k
  {
    var pos' := pos[ids[0] := Slot(next, m)];
    assert Assign(pos, ids, next, m) == Assign(pos', ids[1..], next + 1, m);
    if k == 0 {
      assert ids[0] !in ids[1..];
    } else {
      assert NoDup(ids[1..]) by {
        forall a, b | 0 <= a < b < |ids[1..]|
          ensures ids[1..][a] != ids[1..][b]
        {
          assert ids[1..][a] == ids[a + 1] && ids[1..][b] == ids[b + 1];
        }
      }
      AssignSlot(pos', ids[1..], next + 1, m, k - 1, n);
      assert ids[k] == ids[1..][k - 1];
    }
  }

  /** The positions kept from `prev`: those of ids still on the desktop. */
  function Kept(prev: Positions, items: seq<Project>): Positions {
    Survivors(prev, Ids(items))
  }

  /** `positionedIds.length`: how many positions were kept. */
  function KeptCount(prev: Positions, items: seq<Project>): nat {
    |Kept(prev, items).Keys|
  }

  /** The desktop items without a kept position, in list order. */
  function NewIds(prev: Positions, items: seq<Project>): seq<string> {
    Unpositioned(Ids(items), Kept(prev, items))
  }

  /** `calculatePositions`; `height` is the desktop's client height, `None`
      when the desktop element is missing. */
  function Calculate(prev: Positions, items: seq<Project>, height: Option<int>): (r: Positions)
    ensures height.None? ==> r == prev
    ensures height.Some? ==> forall id :: id in prev && id in Ids(items) ==> id in r && r[id] == prev[id]
    ensures height.Some? ==> forall id :: id in r ==> id in Ids(items)
    ensures height.Some? && MaxPerColumn(height.value) <= 0 ==> r == Survivors(prev, Ids(items))
    ensures height.Some? && MaxPerColumn(height.value) > 0 ==> forall id :: id in r <==> id in Ids(items)
  {
    match height
    case None => prev
    case Some(h) =>
      var m := MaxPerColumn(h);
      var kept := Kept(prev, items);
      if m <= 0 then kept
      else Assign(kept, NewIds(prev, items), KeptCount(prev, items), m)
  }

  /** New items, in list order, take consecutive slots starting at the
      number of positions that survived. */
  lemma NewItemsNumberedFromSurvivors(prev: Positions, items: seq<Project>, h: int, n: nat)
    requires MaxPerColumn(h) > 0
    requires NoDup(Ids(items))
    requires n == KeptCount(prev, items)
    ensures forall k :: 0 <= k < |NewIds(prev, items)| ==>
              && NewIds(prev, items)[k] in Calculate(prev, items, Some(h))
              && Calculate(prev, items, Some(h))[NewIds(prev, items)[k]] == Slot(n + k, MaxPerColumn(h))
  {
    var kept, added, m := Kept(prev, items), NewIds(prev, items), MaxPerColumn(h);
    assert Calculate(prev, items, Some(h)) == Assign(kept, added, n, m);
    UnpositionedNoDup(Ids(items), kept);
    AssignSlots(kept, added, n, m);
  }

  lemma {:induction false} UnpositionedAllNew(ids: seq<string>, kept: Positions)
    requires forall i :: 0 <= i < |ids| ==> ids[i] !in kept
    ensures Unpositioned(ids, kept) == ids
    decreases |ids|
  {
    if |ids| > 0 {
      UnpositionedAllNew(ids[1..], kept);
      assert [ids[0]] + ids[1..] == ids;
    }
  }

  lemma {:induction false} UnpositionedNoDup(ids: seq<string>, kept: Positions)
    requires NoDup(ids)
    ensures NoDup(Unpositioned(ids, kept))
    decreases |ids|
  {
    if |ids| > 0 {
      UnpositionedNoDup(ids[1..], kept);
      assert ids[0] !in ids[1..];
    }
  }

  /** `handlePositionChange(id, p)`: only that id's entry changes. */
  function PositionChange(pos: Positions, id: string, p: Point): (r: Positions)
    ensures id in r && r[id] == p
    ensures forall k :: k != id ==> (k in r <==> k in pos) && (k in pos ==> r[k] == pos[k])
  {
    pos[id := p]
  }

  /** The icons drawn: the desktop items that have a position, in order. */
  function Rendered(items: seq<Project>, pos: Positions): (r: seq<(Project, Point)>)
    ensures forall x :: x in r ==> x.0 in items && x.0.id in pos && x.1 == pos[x.0.id]
    ensures forall p :: p in items && p.id in pos ==> (p, pos[p.id]) in r
  {
    if |items| == 0 then []
    else
      var rest := Rendered(items[1..], pos);
      assert forall p :: p in items[1..] ==> p in items;
      assert forall p :: p in items ==> p == items[0] || p in items[1..];
      if items[0].id in pos then [(items[0], pos[items[0].id])] + rest else rest
  }

  /** A desktop too short for one icon places nothing new, so items that
      had no position are not drawn. */
  lemma TooShortPlacesNothing(prev: Positions, items: seq<Project>, h: int, p: Project)
    requires MaxPerColumn(h) <= 0
    requires p in items && p.id !in prev
    ensures p.id !in Calculate(prev, items, Some(h))
    ensures forall x :: x in Rendered(items, Calculate(prev, items, Some(h))) ==> x.0 != p
  {
  }

  // ---------------------------------------------------------------------
  // Overlap after a removal
  // ---------------------------------------------------------------------

  /** Three icons `a`, `b`, `c` are laid out; then `a` goes away and `d`
      arrives. Numbering restarts at the two survivors, so `d` is put on the
      slot `c` already holds. */
  lemma OverlapAfterRemoval(a: Project, b: Project, c: Project, d: Project, h: int)
    requires MaxPerColumn(h) > 0
    requires a.id != b.id && a.id != c.id && a.id != d.id && b.id != c.id && b.id != d.id && c.id != d.id
    ensures var first := Calculate(map[], [a, b, c], Some(h));
            var second := Calculate(first, [b, c, d], Some(h));
            && c.id in second && d.id in second
            && second[d.id] == second[c.id]
  {
    FirstLayout(a, b, c, h);
    SecondLayout(Calculate(map[], [a, b, c], Some(h)), b, c, d, h);
  }

  /** Three icons on an empty desktop take slots 0, 1 and 2. */
  lemma FirstLayout(a: Project, b: Project, c: Project, h: int)
    requires MaxPerColumn(h) > 0
    requires a.id != b.id && a.id != c.id && b.id != c.id
    ensures var first := Calculate(map[], [a, b, c], Some(h));
            && b.id in first && c.id in first
            && first[c.id] == Slot(2, MaxPerColumn(h))
  {
    var ids1 := Ids([a, b, c]);
    assert ids1 == [a.id, b.id, c.id];
    assert Kept(map[], [a, b, c]) == map[];
    assert KeptCount(map[], [a, b, c]) == 0;
    UnpositionedAllNew(ids1, map[]);
    var m := MaxPerColumn(h);
    assert Calculate(map[], [a, b, c], Some(h)) == Assign(map[], ids1, 0, m);
    AssignSlot(map[], ids1, 0, m, 1, 1);
    AssignSlot(map[], ids1, 0, m, 2, 2);
  }

  /** With `b` and `c` kept and `d` new, `d` takes slot 2. */
  lemma SecondLayout(first: Positions, b: Project, c: Project, d: Project, h: int)
    requires MaxPerColumn(h) > 0
    requires b.id != c.id && b.id != d.id && c.id != d.id
    requires b.id in first && c.id in first && d.id !in first
    ensures var second := Calculate(first, [b, c, d], Some(h));
            && c.id in second && d.id in second
            && second[c.id] == first[c.id]
            && second[d.id] == Slot(2, MaxPerColumn(h))
  {
    var m := MaxPerColumn(h);
    var kept2 := Kept(first, [b, c, d]);
    SecondNewIds(first, b, c, d);
    assert Calculate(first, [b, c, d], Some(h)) == Assign(kept2, [d.id], 2, m);
    AssignSlot(kept2, [d.id], 2, m, 0, 2);
  }

  /** With `b` and `c` kept, two positions survive and `d` alone is new. */
  lemma SecondNewIds(first: Positions, b: Project, c: Project, d: Project)
    requires b.id != c.id && b.id != d.id && c.id != d.id
    requires b.id in first && c.id in first && d.id !in first
    ensures KeptCount(first, [b, c, d]) == 2 && NewIds(first, [b, c, d]) == [d.id]
    ensures c.id in Kept(first, [b, c, d]) && Kept(first, [b, c, d])[c.id] == first[c.id]
  {
    SecondKept(first, b, c, d);
    var ids2 := Ids([b, c, d]);
    assert ids2 == [b.id, c.id, d.id];
    var kept2 := Kept(first, [b, c, d]);
    assert ids2[1..] == [c.id, d.id] && ids2[2..] == [d.id] && ids2[3..] == [];
    assert Unpositioned(ids2[2..], kept2) == [d.id];
    assert Unpositioned(ids2[1..], kept2) == Unpositioned(ids2[2..], kept2) by {
      assert ids2[1..][0] == c.id && c.id in kept2 && ids2[1..][1..] == ids2[2..];
    }
    assert Unpositioned(ids2, kept2) == Unpositioned(ids2[1..], kept2) by {
      assert ids2[0] == b.id && b.id in kept2;
    }
  }

  /** With `b` and `c` on the desktop again, exactly their positions survive. */
  lemma SecondKept(first: Positions, b: Project, c: Project, d: Project)
    requires b.id != c.id && b.id != d.id && c.id != d.id
    requires b.id in first && c.id in first && d.id !in first
    ensures Kept(first, [b, c, d]).Keys == {b.id, c.id}
    ensures KeptCount(first, [b, c, d]) == 2
    ensures c.id in Kept(first, [b, c, d]) && Kept(first, [b, c, d])[c.id] == first[c.id]
  {
    assert Ids([b, c, d]) == [b.id, c.id, d.id];
    assert |{b.id, c.id}| == 2;
  }

  // ---------------------------------------------------------------------
  // Placement into free slots
  // ---------------------------------------------------------------------

  /** The first slot index from `i` on whose position nobody holds. */
  function FirstFree(taken: set<Point>, i: nat, m: int): (r: nat)
    requires m > 0
    ensures i <= r
    ensures Slot(r, m) !in taken
    ensures forall j :: i <= j < r ==> Slot(j, m) in taken
    decreases |taken|
  {
    if Slot(i, m) in taken then
      var r := FirstFree(taken - {Slot(i, m)}, i + 1, m);
      SlotInjective(r, i, m);
      assert forall j :: i < j < r ==> Slot(j, m) in taken - {Slot(i, m)};
      r
    else i
  }

  /** Placement that gives each new item the first unoccupied slot. */
  function AssignFree(pos: Positions, ids: seq<string>, m: int): (r: Positions)
    requires m > 0
    ensures forall id :: id in r <==> id in pos || id in ids
    ensures forall id :: id in pos && id !in ids ==> r[id] == pos[id]
    decreases |ids|
  {
    if |ids| == 0 then pos
    else AssignFree(pos[ids[0] := Slot(FirstFree(pos.Values, 0, m), m)], ids[1..], m)
  }

  /** Every position in `added` differs from every other id's position. */
  predicate Apart(pos: Positions, added: set<string>) {
    forall x, y :: x in added && x in pos && y in pos && x != y ==> pos[x] != pos[y]
  }

  lemma {:induction false} AssignFreeApart(pos: Positions, ids: seq<string>, m: int, added: set<string>)
    requires m > 0 && Apart(pos, added)
    ensures Apart(AssignFree(pos, ids, m), added + set id | id in ids)
    decreases |ids|
  {
    if |ids| == 0 {
      assert (added + set id | id in ids) == added;
    } else {
      var x := ids[0];
      var s := Slot(FirstFree(pos.Values, 0, m), m);
      var pos' := pos[x := s];
      forall a, b | a in added + {x} && a in pos' && b in pos' && a != b
        ensures pos'[a] != pos'[b]
      {
        if a == x {
          assert pos'[b] == pos[b] && pos[b] in pos.Values;
        } else if b == x {
          assert pos'[a] == pos[a] && pos[a] in pos.Values;
        }
      }
      AssignFreeApart(pos', ids[1..], m, added + {x});
      assert added + {x} + (set id | id in ids[1..]) == added + set id | id in ids;
    }
  }

  /** `calculatePositions` with new items placed into free slots. */
  function CalculateFree(prev: Positions, items: seq<Project>, height: Option<int>): (r: Positions)
    ensures height.None? ==> r == prev
    ensures height.Some? ==> forall id :: id in prev && id in Ids(items) ==> id in r && r[id] == prev[id]
    ensures height.Some? ==> forall id :: id in r ==> id in Ids(items)
    ensures height.Some? && MaxPerColumn(height.value) <= 0 ==> r == Survivors(prev, Ids(items))
    ensures height.Some? && MaxPerColumn(height.value) > 0 ==> forall id :: id in r <==> id in Ids(items)
  {
    match height
    case None => prev
    case Some(h) =>
      var m := MaxPerColumn(h);
      var kept := Survivors(prev, Ids(items));
      if m <= 0 then kept
      else AssignFree(kept, Unpositioned(Ids(items), kept), m)
  }

  /** No newly placed icon shares its position with any other icon. */
  lemma NewIconsApart(prev: Positions, items: seq<Project>, h: int)
    requires MaxPerColumn(h) > 0
    ensures var kept := Survivors(prev, Ids(items));
            var r := CalculateFree(prev, items, Some(h));
            forall x, y :: x in r && y in r && x != y && x !in kept ==> r[x] != r[y]
  {
    var kept := Survivors(prev, Ids(items));
    var added := Unpositioned(Ids(items), kept);
    AssignFreeApart(kept, added, MaxPerColumn(h), {});
    var r := CalculateFree(prev, items, Some(h));
    forall x, y | x in r && y in r && x != y && x !in kept
      ensures r[x] != r[y]
    {
      assert x in added;
      assert x in ({} + set id | id in added);
    }
  }
}
