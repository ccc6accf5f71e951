/*
  The batch render list: the dialog actions that move or remove the
  selected entry, and the operator that finds and removes entries whose
  .blend file is already in the list.
*/
module Batch {

  /** One entry of the batch list: the file name of the .blend and its full path. */
  datatype Item = Item(name: string, path: string)

  /** The actions of the batch dialog. */
  datatype Action = Up | Down | Remove | Add

  /** What `invoke` of the duplicate remover returns: a confirmation dialog, or done at once. */
  datatype Reply = Confirm | Finished

  /**
    `collection.move(from, to)` for neighbouring positions, the only moves
    the dialog makes: the two entries trade places. For a position outside
    the collection Blender raises `KeyError` and the list stays as it was.
   */
  function Move(s: seq<Item>, from: int, to: int): (r: seq<Item>)
    requires to == from + 1 || to == from - 1
    ensures |r| == |s| && multiset(r) == multiset(s)
    ensures 0 <= from < |s| && 0 <= to < |s| ==> r[to] == s[from] && r[from] == s[to]
    ensures forall k :: 0 <= k < |s| && k != from && k != to ==> r[k] == s[k]
  {
    if 0 <= from < |s| && 0 <= to < |s| then s[from := s[to]][to := s[from]] else s
  }

  /**
    `collection.remove(i)`: the entry at `i` is dropped and the later ones
    move up by one. For a position outside the collection Blender raises
    `KeyError` and the list stays as it was.
   */
  function RemoveAt(s: seq<Item>, i: int): (r: seq<Item>)
    ensures 0 <= i < |s| ==> multiset(r) + multiset{s[i]} == multiset(s) && |r| == |s| - 1
    ensures 0 <= i < |s| ==> forall k :: 0 <= k < i ==> r[k] == s[k]
    ensures 0 <= i < |s| ==> forall k :: i <= k < |r| ==> r[k] == s[k + 1]
    ensures !(0 <= i < |s|) ==> r == s
  {
    if 0 <= i < |s| then
      assert s == s[..i] + [s[i]] + s[i + 1..];
      s[..i] + s[i + 1..]
    else s
  }

  /** Python indexing of the collection succeeds for `-n <= i < n`. */
  predicate Indexable(s: seq<Item>, i: int) {
    -|s| <= i < |s|
  }

  /**
    The list and the selected index after one dialog action. The action
    only touches the list when the selected index can be looked up; `Add`
    selects the position after the last entry in every case. A negative
    selection that Python indexing accepts makes `move` and `remove` raise:
    `Down` then leaves the selection as it was, while `Remove` has already
    lowered it.
   */
  function Apply(items: seq<Item>, index: int, action: Action): (seq<Item>, int) {
    if !Indexable(items, index) then (items, if action == Add then |items| else index)
    else match action
      case Down =>
        if index < 0 || index >= |items| - 1 then (items, index)
        else (Move(items, index, index + 1), index + 1)
      case Up => if index >= 1 then (Move(items, index, index - 1), index - 1) else (items, index)
      case Remove => (RemoveAt(items, index), if index - 1 < 0 then 0 else index - 1)
      case Add => (items, |items|)
  }

  /** Moving the selected entry up and then down again gives back the list and the selection. */
  lemma UpThenDown(items: seq<Item>, index: int)
    requires 1 <= index < |items|
    ensures Apply(Apply(items, index, Up).0, Apply(items, index, Up).1, Down) == (items, index)
  {
    var moved := Move(items, index, index - 1);
    assert Apply(items, index, Up) == (moved, index - 1);
    assert Move(moved, index - 1, index) == items;
    assert Apply(moved, index - 1, Down) == (items, index);
  }

  /** Moving the selected entry down and then up again gives back the list and the selection. */
  lemma DownThenUp(items: seq<Item>, index: int)
    requires 0 <= index < |items| - 1
    ensures Apply(Apply(items, index, Down).0, Apply(items, index, Down).1, Up) == (items, index)
  {
    var moved := Move(items, index, index + 1);
    assert Apply(items, index, Down) == (moved, index + 1);
    assert Move(moved, index + 1, index) == items;
    assert Apply(moved, index + 1, Up) == (items, index);
  }

  /**
    A negative selection never changes the list: `move` and `remove` raise.
    `Remove` has lowered the selection to 0 by then; `Up` and `Down` leave it.
   */
  lemma NegativeSelectionKeepsList(items: seq<Item>, index: int, action: Action)
    requires -|items| <= index < 0 && action != Add
    ensures Apply(items, index, action).0 == items
    ensures Apply(items, index, action).1 == if action == Remove then 0 else index
  {
  }

  /** Up and down keep the entries and keep the same entry selected. */
  lemma MoveKeepsSelection(items: seq<Item>, index: int, action: Action)
    requires 0 <= index < |items| && action in {Up, Down}
    ensures multiset(Apply(items, index, action).0) == multiset(items)
    ensures Apply(items, index, action).0[Apply(items, index, action).1] == items[index]
  {
  }

  /**
    Remove drops exactly the selected entry, keeps the others in order, and
    selects the entry before it (the first one when it was first).
   */
  lemma RemoveDropsSelected(items: seq<Item>, index: int)
    requires 0 <= index < |items|
    ensures multiset(Apply(items, index, Remove).0) + multiset{items[index]} == multiset(items)
    ensures Apply(items, index, Remove).0 == items[..index] + items[index + 1..]
    ensures Apply(items, index, Remove).1 == if index == 0 then 0 else index - 1
  {
    var r := Apply(items, index, Remove).0;
    assert r == RemoveAt(items, index);
    assert |r| == |items[..index] + items[index + 1..]|;
  }

  /** The batch list of the scene and its selected index. */
  class BatchList {
    var items: seq<Item>   // loom.batch_render_coll
    var index: int         // loom.batch_render_idx

    /**
      `invoke` of the dialog action operator. `Add` also opens the file
      browser, which adds entries later; that is not part of this model.
     */
    method Invoke(action: Action)
      modifies this
      ensures (items, index) == Apply(old(items), old(index), action)
    {
      if Indexable(items, index) {
        if action == Down && 0 <= index < |items| - 1 {
          items := Move(items, index, index + 1);
          index := index + 1;
        } else if action == Up && index >= 1 {
          items := Move(items, index, index - 1);
          index := index - 1;
        } else if action == Remove {
          var at := index;
          index := index - 1;
          if index < 0 {
            index := 0;
          }
          items := RemoveAt(items, at);
        }
      }
      if action == Add {
        index := |items|;
      }
    }
  }

  predicate Distinct(s: seq<string>) {
    forall i, j :: 0 <= i < j < |s| ==> s[i] != s[j]
  }

  /**
    The dictionary `find_duplicates` builds: the paths in the order they are
    first met, and for each path the names of its entries in list order.
   */
  function Group(items: seq<Item>): (r: (seq<string>, map<string, seq<string>>))
    ensures forall p :: p in r.0 ==> p in r.1
  {
    if items == [] then ([], map[])
    else
      var (order, lookup) := Group(items[..|items| - 1]);
      var x := items[|items| - 1];
      if x.path in lookup then (order, lookup[x.path := lookup[x.path] + [x.name]])
      else (order + [x.path], lookup[x.path := [x.name]])
  }

  /** The paths of the dictionary are its keys, each once, and no key has an empty group. */
  lemma {:induction false} GroupShape(items: seq<Item>)
    ensures forall p :: p in Group(items).1 ==> p in Group(items).0
    ensures Distinct(Group(items).0)
    ensures forall p :: p in Group(items).1 ==> Group(items).1[p] != []
  {
    if items != [] {
      var rest := items[..|items| - 1];
      var x := items[|items| - 1];
      assert items == rest + [x];
      GroupShape(rest);
      GroupSnoc(rest, x);
    }
  }

  /** Every name of each path's group but the first, path by path. */
  function Flatten(order: seq<string>, lookup: map<string, seq<string>>): seq<string>
    requires forall p :: p in order ==> p in lookup
  {
    if order == [] then [] else
      var names := lookup[order[0]];
      (if names == [] then [] else names[1..]) + Flatten(order[1..], lookup)
  }

  /** The names `find_duplicates` collects. */
  function Duplicates(items: seq<Item>): seq<string> {
    var (order, lookup) := Group(items);
    Flatten(order, lookup)
  }

  /** The paths of the entries. */
  function PathsOf(items: seq<Item>): (r: set<string>)
    ensures forall p :: p in r <==> exists i :: 0 <= i < |items| && items[i].path == p
  {
    set i | 0 <= i < |items| :: items[i].path
  }

  /** The names of the entries whose path an earlier entry already has, in list order. */
  function Later(items: seq<Item>): seq<string> {
    if items == [] then [] else
      var rest := items[..|items| - 1];
      var x := items[|items| - 1];
      Later(rest) + (if x.path in PathsOf(rest) then [x.name] else [])
  }

  /** The paths of a list with one more entry. */
  lemma PathsOfSnoc(items: seq<Item>, x: Item)
    ensures PathsOf(items + [x]) == PathsOf(items) + {x.path}
  {
    assert forall i :: 0 <= i < |items| ==> (items + [x])[i] == items[i];
    assert (items + [x])[|items|] == x;
  }

  /** The dictionary after one more entry. */
  lemma GroupSnoc(items: seq<Item>, x: Item)
    ensures Group(items + [x])
            == (if x.path in Group(items).1 then (Group(items).0, Group(items).1[x.path := Group(items).1[x.path] + [x.name]])
                else (Group(items).0 + [x.path], Group(items).1[x.path := [x.name]]))
  {
    assert (items + [x])[..|items|] == items;
  }

  /** A group that is not in the order does not count. */
  lemma {:induction false} FlattenIgnores(order: seq<string>, lookup: map<string, seq<string>>, p: string,
                                          names: seq<string>)
    requires forall q :: q in order ==> q in lookup
    requires p !in order
    ensures Flatten(order, lookup[p := names]) == Flatten(order, lookup)
  {
    if order != [] {
      FlattenIgnores(order[1..], lookup, p, names);
    }
  }

  /** One more name in a group that is already there adds that name once. */
  lemma {:induction false} FlattenExtend(order: seq<string>, lookup: map<string, seq<string>>, p: string, n: string)
    requires forall q :: q in order ==> q in lookup
    requires Distinct(order) && p in order && lookup[p] != []
    ensures multiset(Flatten(order, lookup[p := lookup[p] + [n]])) == multiset(Flatten(order, lookup)) + multiset{n}
  {
    DistinctTail(order);
    if order[0] == p {
      FlattenExtendHead(order, lookup, p, n);
    } else {
      assert p in order[1..] by {
        var k :| 0 <= k < |order| && order[k] == p;
        assert order[1..][k - 1] == p;
      }
      FlattenExtend(order[1..], lookup, p, n);
      FlattenStep(order, lookup, p, lookup[p] + [n]);
    }
  }

  /** Growing the group at the head of the order. */
  lemma FlattenExtendHead(order: seq<string>, lookup: map<string, seq<string>>, p: string, n: string)
    requires forall q :: q in order ==> q in lookup
    requires order != [] && order[0] == p && p !in order[1..] && lookup[p] != []
    ensures Flatten(order, lookup[p := lookup[p] + [n]]) == (lookup[p][1..] + [n]) + Flatten(order[1..], lookup)
    ensures Flatten(order, lookup) == lookup[p][1..] + Flatten(order[1..], lookup)
  {
    var grown := lookup[p := lookup[p] + [n]];
    FlattenIgnores(order[1..], lookup, p, lookup[p] + [n]);
    assert grown[order[0]] == lookup[p] + [n];
    assert (lookup[p] + [n])[1..] == lookup[p][1..] + [n];
    assert Flatten(order, grown) == (lookup[p] + [n])[1..] + Flatten(order[1..], grown);
  }

  /** Changing a group behind the head of the order leaves the head's part alone. */
  lemma FlattenStep(order: seq<string>, lookup: map<string, seq<string>>, p: string, names: seq<string>)
    requires forall q :: q in order ==> q in lookup
    requires order != [] && order[0] != p
    ensures var first := if lookup[order[0]] == [] then [] else lookup[order[0]][1..];
            && Flatten(order, lookup[p := names]) == first + Flatten(order[1..], lookup[p := names])
            && Flatten(order, lookup) == first + Flatten(order[1..], lookup)
  {
  }

  /** The tail of a list without repeats has no repeats and does not hold the head. */
  lemma DistinctTail(order: seq<string>)
    requires order != [] && Distinct(order)
    ensures Distinct(order[1..]) && order[0] !in order[1..]
  {
    forall k | 0 <= k < |order[1..]| ensures order[1..][k] != order[0] {
      assert order[1..][k] == order[k + 1];
    }
    forall i, j | 0 <= i < j < |order[1..]| ensures order[1..][i] != order[1..][j] {
      assert order[1..][i] == order[i + 1] && order[1..][j] == order[j + 1];
    }
  }

  /** A new group of one name adds nothing. */
  lemma FlattenNew(order: seq<string>, lookup: map<string, seq<string>>, p: string, n: string)
    requires forall q :: q in order ==> q in lookup
    requires p !in order
    ensures Flatten(order + [p], lookup[p := [n]]) == Flatten(order, lookup)
  {
    FlattenSnoc(order, lookup[p := [n]], p);
    FlattenIgnores(order, lookup, p, [n]);
  }

  lemma {:induction false} FlattenSnoc(order: seq<string>, lookup: map<string, seq<string>>, p: string)
    requires forall q :: q in order ==> q in lookup
    requires p in lookup && lookup[p] != []
    ensures Flatten(order + [p], lookup) == Flatten(order, lookup) + lookup[p][1..]
  {
    if order != [] {
      assert (order + [p])[1..] == order[1..] + [p];
      FlattenSnoc(order[1..], lookup, p);
    } else {
      assert [p][1..] == [];
    }
  }

  /**
    `find_duplicates` reports, counted with repeats, exactly the names of the
    entries whose path an earlier entry already has.
   */
  lemma {:induction false} DuplicatesAreLater(items: seq<Item>)
    ensures multiset(Duplicates(items)) == multiset(Later(items))
  {
    if items != [] {
      var rest := items[..|items| - 1];
      var x := items[|items| - 1];
      assert items == rest + [x];
      DuplicatesAreLater(rest);
      GroupKeys(rest);
      GroupShape(rest);
      GroupSnoc(rest, x);
      LaterSnoc(rest, x);
      var (order, lookup) := Group(rest);
      if x.path in lookup {
        FlattenExtend(order, lookup, x.path, x.name);
      } else {
        FlattenNew(order, lookup, x.path, x.name);
      }
    }
  }

  /** The dictionary has a key for each path of the list and no other. */
  lemma {:induction false} GroupKeys(items: seq<Item>)
    ensures forall p :: p in Group(items).1 <==> p in PathsOf(items)
  {
    if items != [] {
      var rest := items[..|items| - 1];
      var x := items[|items| - 1];
      assert items == rest + [x];
      GroupKeys(rest);
      GroupSnoc(rest, x);
      PathsOfSnoc(rest, x);
    }
  }

  /** `Later` after one more entry. */
  lemma LaterSnoc(items: seq<Item>, x: Item)
    ensures Later(items + [x]) == Later(items) + (if x.path in PathsOf(items) then [x.name] else [])
  {
    assert (items + [x])[..|items|] == items;
  }

  /** The list with only the first entry of each path, in list order. */
  function KeepFirst(items: seq<Item>): seq<Item> {
    if items == [] then [] else
      var rest := items[..|items| - 1];
      var x := items[|items| - 1];
      KeepFirst(rest) + (if x.path in PathsOf(rest) then [] else [x])
  }

  function Names(items: seq<Item>): seq<string> {
    seq(|items|, i requires 0 <= i < |items| => items[i].name)
  }

  /** The kept list after one more entry. */
  lemma KeepFirstSnoc(items: seq<Item>, x: Item)
    ensures KeepFirst(items + [x]) == KeepFirst(items) + (if x.path in PathsOf(items) then [] else [x])
  {
    assert (items + [x])[..|items|] == items;
  }

  /** Keeping the first entry of each path keeps every path. */
  lemma {:induction false} KeepFirstPaths(items: seq<Item>)
    ensures PathsOf(KeepFirst(items)) == PathsOf(items)
  {
    if items != [] {
      var rest := items[..|items| - 1];
      var x := items[|items| - 1];
      assert items == rest + [x];
      KeepFirstPaths(rest);
      KeepFirstSnoc(rest, x);
      PathsOfSnoc(rest, x);
      if x.path in PathsOf(rest) {
        assert KeepFirst(items) == KeepFirst(rest);
      } else {
        PathsOfSnoc(KeepFirst(rest), x);
      }
    }
  }

  /** Keeping the first entry of each path leaves no two entries with one path. */
  lemma {:induction false} KeepFirstDistinct(items: seq<Item>)
    ensures forall i, j :: 0 <= i < j < |KeepFirst(items)| ==> KeepFirst(items)[i].path != KeepFirst(items)[j].path
  {
    if items != [] {
      var rest := items[..|items| - 1];
      var x := items[|items| - 1];
      assert items == rest + [x];
      KeepFirstDistinct(rest);
      KeepFirstPaths(rest);
      KeepFirstSnoc(rest, x);
      var kept := KeepFirst(rest);
      if x.path !in PathsOf(rest) {
        forall i, j | 0 <= i < j < |kept + [x]| ensures (kept + [x])[i].path != (kept + [x])[j].path {
          if j == |kept| {
            assert kept[i].path in PathsOf(kept);
          }
        }
      }
    }
  }

  lemma MultisetSnoc(kept: seq<string>, dropped: seq<string>, all: seq<string>, n: string)
    requires multiset(kept) + multiset(dropped) == multiset(all)
    ensures multiset(kept + [n]) + multiset(dropped) == multiset(all + [n])
    ensures multiset(kept) + multiset(dropped + [n]) == multiset(all + [n])
  {
  }

  /** Keeping the first entry of each path drops, counted with repeats, exactly the names of `Later`. */
  lemma {:induction false} KeepFirstDropsLater(items: seq<Item>)
    ensures multiset(Names(KeepFirst(items))) + multiset(Later(items)) == multiset(Names(items))
  {
    if items != [] {
      var rest := items[..|items| - 1];
      var x := items[|items| - 1];
      assert items == rest + [x];
      KeepFirstDropsLater(rest);
      KeepFirstSnoc(rest, x);
      LaterSnoc(rest, x);
      assert Names(items) == Names(rest) + [x.name];
      MultisetSnoc(Names(KeepFirst(rest)), Later(rest), Names(rest), x.name);
      if x.path in PathsOf(rest) {
        assert KeepFirst(items) == KeepFirst(rest);
        assert Later(items) == Later(rest) + [x.name];
      } else {
        assert KeepFirst(items) == KeepFirst(rest) + [x];
        assert Names(KeepFirst(rest) + [x]) == Names(KeepFirst(rest)) + [x.name];
        assert Later(items) == Later(rest);
      }
    }
  }

  /** `collection.find(name)`: the position of the first entry with that name, or -1. */
  function Find(items: seq<Item>, name: string): (i: int)
    ensures -1 <= i < |items|
    ensures i >= 0 ==> items[i].name == name && forall k :: 0 <= k < i ==> items[k].name != name
    ensures i == -1 ==> forall k :: 0 <= k < |items| ==> items[k].name != name
  {
    if items == [] then -1
    else if items[0].name == name then 0
    else var k := Find(items[1..], name); if k == -1 then -1 else k + 1
  }

  /** `execute` of the duplicate remover as written: each reported name removes the first entry with that name. */
  function RemoveByName(items: seq<Item>, names: seq<string>): seq<Item>
    decreases |names|
  {
    if names == [] then items else RemoveByName(RemoveAt(items, Find(items, names[0])), names[1..])
  }

  /**
    Two .blend files of the same name `n` in different folders `a` and `b`,
    the second one listed twice: `find_duplicates` reports `n` once.
   */
  lemma SameNameDuplicates(n: string, a: string, b: string)
    requires a != b
    ensures Duplicates([Item(n, a), Item(n, b), Item(n, b)]) == [n]
  {
    var g := Group([Item(n, a), Item(n, b), Item(n, b)]);
    SameNameGroup(n, a, b);
    assert g.0[1..] == [b] && [b][1..] == [] && [n][1..] == [] && [n, n][1..] == [n];
    assert Flatten([b], g.1) == [n];
  }

  /** The dictionary `find_duplicates` builds for those three entries. */
  lemma SameNameGroup(n: string, a: string, b: string)
    requires a != b
    ensures var g := Group([Item(n, a), Item(n, b), Item(n, b)]);
            g.0 == [a, b] && g.1[a] == [n] && g.1[b] == [n, n]
  {
    var y := Item(n, b);
    SameNameGroupPair(n, a, b);
    assert [Item(n, a), y] + [y] == [Item(n, a), y, y];
    GroupSnoc([Item(n, a), y], y);
  }

  /** The dictionary for the first two of those entries. */
  lemma SameNameGroupPair(n: string, a: string, b: string)
    requires a != b
    ensures var g := Group([Item(n, a), Item(n, b)]);
            g.0 == [a, b] && b in g.1 && g.1[a] == [n] && g.1[b] == [n]
  {
    var x, y := Item(n, a), Item(n, b);
    GroupSingle(x);
    assert [x, y] == [x] + [y];
    GroupSnoc([x], y);
  }

  /** The dictionary for a single entry. */
  lemma GroupSingle(x: Item)
    ensures Group([x]) == ([x.path], map[x.path := [x.name]])
  {
    var empty: map<string, seq<string>> := map[];
    assert Group([]) == ([], empty);
    assert [] + [x] == [x];
    var none: seq<string> := [];
    assert none + [x.path] == [x.path];
    GroupSnoc([], x);
  }

  /** Keeping the first entry of each path keeps one entry of each file. */
  lemma SameNameKeepFirst(n: string, a: string, b: string)
    requires a != b
    ensures KeepFirst([Item(n, a), Item(n, b), Item(n, b)]) == [Item(n, a), Item(n, b)]
  {
    var x, y := Item(n, a), Item(n, b);
    assert [] + [x] == [x] && [x] + [y] == [x, y] && [x, y] + [y] == [x, y, y];
    KeepFirstSnoc([], x);
    KeepFirstSnoc([x], y);
    KeepFirstSnoc([x, y], y);
    PathsOfSnoc([], x);
    PathsOfSnoc([x], y);
    assert PathsOf([]) == {};
  }

  /**
    With two .blend files of the same name in different folders, the second
    one listed twice, the remover as written drops the only entry of the
    first file and keeps both entries of the second, where keeping the first
    entry of each path gives one entry per file.
   */
  lemma RemoveByNameDropsWrongEntry(n: string, a: string, b: string)
    requires a != b
    ensures var items := [Item(n, a), Item(n, b), Item(n, b)];
            && RemoveByName(items, Duplicates(items)) == [Item(n, b), Item(n, b)]
            && KeepFirst(items) == [Item(n, a), Item(n, b)]
  {
    var items := [Item(n, a), Item(n, b), Item(n, b)];
    SameNameDuplicates(n, a, b);
    SameNameKeepFirst(n, a, b);
    assert Find(items, n) == 0;
    assert RemoveAt(items, 0) == [Item(n, b), Item(n, b)];
    assert [n][1..] == [];
  }

  /**
    The duplicate remover. Its list of reported names is a class attribute in
    the source, shared by every instance and emptied by each `invoke`.
   */
  class RemoveDoubles {
    var doubles: seq<string>

    /** `find_duplicates`: group the names by path, then report all but the first of each group. */
    method FindDuplicates(items: seq<Item>) returns (count: nat)
      modifies this
      ensures doubles == old(doubles) + Duplicates(items)
      ensures count == |doubles|
    {
      var order, lookup := GroupPaths(items);
      var found := doubles;
      var todo := order;
      while todo != []
        invariant forall p :: p in todo ==> p in lookup
        invariant doubles + Flatten(order, lookup) == found + Flatten(todo, lookup)
        modifies {}
      {
        var names := lookup[todo[0]];
        var extra := if names == [] then [] else names[1..];
        assert Flatten(todo, lookup) == extra + Flatten(todo[1..], lookup);
        assert found + Flatten(todo, lookup) == (found + extra) + Flatten(todo[1..], lookup);
        found := found + extra;
        todo := todo[1..];
      }
      assert found == doubles + Flatten(order, lookup);
      doubles := found;
      count := |doubles|;
    }

    /** The first loop of `find_duplicates`: `path_lookup.setdefault(i.path, []).append(i.name)`. */
    static method GroupPaths(items: seq<Item>) returns (order: seq<string>, lookup: map<string, seq<string>>)
      ensures (order, lookup) == Group(items)
    {
      order, lookup := [], map[];
      var c := 0;
      while c < |items|
        invariant 0 <= c <= |items|
        invariant (order, lookup) == Group(items[..c])
      {
        assert items[..c + 1][..c] == items[..c];
        var x := items[c];
        if x.path in lookup {
          lookup := lookup[x.path := lookup[x.path] + [x.name]];
        } else {
          order := order + [x.path];
          lookup := lookup[x.path := [x.name]];
        }
        c := c + 1;
      }
      assert items[..c] == items;
    }

    /** `invoke`: start from an empty report; ask for confirmation only when there is a duplicate. */
    method Invoke(list: BatchList) returns (reply: Reply)
      modifies this
      ensures doubles == Duplicates(list.items)
      ensures reply == Confirm <==> Duplicates(list.items) != []
    {
      doubles := [];
      var count := FindDuplicates(list.items);
      reply := if count > 0 then Confirm else Finished;
    }

    /** `execute` as written: remove, for each reported name, the first entry with that name; select the last entry. */
    method ExecuteAsWritten(list: BatchList)
      modifies list
      ensures list.items == RemoveByName(old(list.items), doubles)
      ensures list.index == |list.items| - 1
    {
      var todo := doubles;
      while todo != []
        invariant RemoveByName(list.items, todo) == RemoveByName(old(list.items), doubles)
      {
        var at := Find(list.items, todo[0]);
        list.items := RemoveAt(list.items, at);
        todo := todo[1..];
      }
      list.index := |list.items| - 1;
    }

    /**
      `execute` as intended: remove the entries `find_duplicates` reported,
      that is every entry whose path an earlier entry already has; select
      the last entry.
     */
    method Execute(list: BatchList)
      modifies list
      ensures list.items == KeepFirst(old(list.items))
      ensures list.index == |list.items| - 1
    {
      var items := list.items;
      var kept: seq<Item> := [];
      var seen: set<string> := {};
      var c := 0;
      while c < |items|
        invariant 0 <= c <= |items|
        invariant kept == KeepFirst(items[..c]) && seen == PathsOf(items[..c])
      {
        assert items[..c + 1][..c] == items[..c];
        assert PathsOf(items[..c + 1]) == PathsOf(items[..c]) + {items[c].path} by {
          assert forall i :: 0 <= i < c ==> items[..c + 1][i] == items[..c][i];
          assert items[..c + 1][c] == items[c];
        }
        if items[c].path !in seen {
          kept := kept + [items[c]];
        }
        seen := seen + {items[c].path};
        c := c + 1;
      }
      assert items[..c] == items;
      list.items := kept;
      list.index := |kept| - 1;
    }
  }
}
