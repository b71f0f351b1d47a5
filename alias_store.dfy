/**
 * The alias list: adding re-sorts the whole list by name, updating rewrites
 * the command of every alias with a name, removing filters them out.
 */
module AliasStore {
  import opened Text
  import opened Seqs

  datatype AliasItem = AliasItem(name: string, command: string)

  function InitialAliases(): seq<AliasItem> {
    [AliasItem("st", "status"), AliasItem("ci", "commit"), AliasItem("amend", "commit --amend")]
  }

  /** Ordered by name, every pair and not only neighbours. */
  predicate SortedByName(s: seq<AliasItem>) {
    forall i, j | 0 <= i < j < |s| :: LexLe(s[i].name, s[j].name)
  }

  /** Places `x` before the first element whose name does not sort below it. */
  function InsertByName(x: AliasItem, s: seq<AliasItem>): seq<AliasItem> {
    if s == [] || LexLe(x.name, s[0].name) then [x] + s
    else [s[0]] + InsertByName(x, s[1..])
  }

  /** The sort by name that adding re-applies: a stable insertion sort from the back (`SortByNameIsStable`). */
  function SortByName(s: seq<AliasItem>): seq<AliasItem> {
    if s == [] then [] else InsertByName(s[0], SortByName(s[1..]))
  }

  /** `addAlias`: the new list is the old one with the item appended, sorted. */
  function WithAlias(aliases: seq<AliasItem>, item: AliasItem): seq<AliasItem> {
    SortByName(aliases + [item])
  }

  /** `updateAlias`: every alias with the name takes the new command. */
  function WithCommand(aliases: seq<AliasItem>, name: string, command: string): seq<AliasItem> {
    seq(|aliases|, i requires 0 <= i < |aliases| =>
      if aliases[i].name == name then aliases[i].(command := command) else aliases[i])
  }

  /** `removeAlias`: the aliases with other names, in order. */
  function WithoutName(aliases: seq<AliasItem>, name: string): seq<AliasItem> {
    Filter((a: AliasItem) => a.name != name, aliases)
  }

  // ---------------------------------------------------------------- sorting

  lemma {:induction false} InsertByNamePermutes(x: AliasItem, s: seq<AliasItem>)
    ensures multiset(InsertByName(x, s)) == multiset(s) + multiset{x}
  {
    if s != [] && !LexLe(x.name, s[0].name) {
      InsertByNamePermutes(x, s[1..]);
      assert s == [s[0]] + s[1..];
    }
  }

  lemma {:induction false} SortByNamePermutes(s: seq<AliasItem>)
    ensures multiset(SortByName(s)) == multiset(s)
  {
    if s != [] {
      SortByNamePermutes(s[1..]);
      InsertByNamePermutes(s[0], SortByName(s[1..]));
      assert s == [s[0]] + s[1..];
    }
  }

  lemma {:induction false} InsertByNameSorted(x: AliasItem, s: seq<AliasItem>)
    requires SortedByName(s)
    ensures SortedByName(InsertByName(x, s))
  {
    if s == [] {
    } else if LexLe(x.name, s[0].name) {
      forall j | 0 < j < |s| ensures LexLe(x.name, s[j].name) {
        LexLeTransitive(x.name, s[0].name, s[j].name);
      }
    } else {
      var t := s[1..];
      assert SortedByName(t);
      InsertByNameSorted(x, t);
      InsertByNamePermutes(x, t);
      var r := InsertByName(x, t);
      LexLeTotal(x.name, s[0].name);
      forall y | y in r ensures LexLe(s[0].name, y.name) {
        assert y in multiset(r);
        if y != x {
          assert y in t;
        }
      }
      assert forall j | 0 < j < |r| + 1 :: ([s[0]] + r)[j] == r[j - 1];
    }
  }

  lemma {:induction false} SortByNameSorted(s: seq<AliasItem>)
    ensures SortedByName(SortByName(s))
  {
    if s != [] {
      SortByNameSorted(s[1..]);
      InsertByNameSorted(s[0], SortByName(s[1..]));
    }
  }

  /** Inserting places `x` among the aliases of its own name after none of them. */
  lemma {:induction false} InsertByNameKeepsNameOrder(x: AliasItem, s: seq<AliasItem>, n: string)
    ensures Filter((a: AliasItem) => a.name == n, InsertByName(x, s)) ==
      (if x.name == n then [x] else []) + Filter((a: AliasItem) => a.name == n, s)
  {
    var p := (a: AliasItem) => a.name == n;
    if s == [] || LexLe(x.name, s[0].name) {
      FilterCons(p, x, s);
    } else {
      var t := s[1..];
      assert s == [s[0]] + t;
      LexLeTotal(x.name, x.name);
      assert s[0].name != x.name;
      InsertByNameKeepsNameOrder(x, t, n);
      FilterCons(p, s[0], InsertByName(x, t));
      FilterCons(p, s[0], t);
    }
  }

  /**
   * The sort is stable: the aliases sharing a name come out in the order
   * they went in.
   */
  lemma {:induction false} SortByNameIsStable(s: seq<AliasItem>, n: string)
    ensures Filter((a: AliasItem) => a.name == n, SortByName(s)) == Filter((a: AliasItem) => a.name == n, s)
  {
    if s != [] {
      SortByNameIsStable(s[1..], n);
      InsertByNameKeepsNameOrder(s[0], SortByName(s[1..]), n);
      assert s == [s[0]] + s[1..];
      FilterCons((a: AliasItem) => a.name == n, s[0], s[1..]);
    }
  }

  /** Adding keeps the aliases of each name in their old order and puts the new one after them. */
  lemma WithAliasKeepsNameOrder(aliases: seq<AliasItem>, item: AliasItem, n: string)
    ensures Filter((a: AliasItem) => a.name == n, WithAlias(aliases, item)) ==
      Filter((a: AliasItem) => a.name == n, aliases) + (if item.name == n then [item] else [])
  {
    SortByNameIsStable(aliases + [item], n);
    FilterAppend((a: AliasItem) => a.name == n, aliases, [item]);
  }

  /** Adding keeps every alias, the new one included even when its name is taken, and leaves the list sorted. */
  lemma WithAliasSortsAndKeeps(aliases: seq<AliasItem>, item: AliasItem)
    ensures multiset(WithAlias(aliases, item)) == multiset(aliases) + multiset{item}
    ensures |WithAlias(aliases, item)| == |aliases| + 1
    ensures SortedByName(WithAlias(aliases, item))
  {
    SortByNamePermutes(aliases + [item]);
    SortByNameSorted(aliases + [item]);
    assert |multiset(WithAlias(aliases, item))| == |WithAlias(aliases, item)|;
  }

  /** The initial list is not sorted by name; it is only after the first addition. */
  lemma InitialAliasesUnsorted()
    ensures !SortedByName(InitialAliases())
  {
    var s := InitialAliases();
    assert s[0].name == "st" && s[1].name == "ci";
    assert !LexLe(s[0].name, s[1].name);
  }

  // ---------------------------------------------------------------- update and remove

  /** Updating keeps length, order and names, and changes only the command of the aliases with that name. */
  lemma WithCommandFrame(aliases: seq<AliasItem>, name: string, command: string)
    ensures |WithCommand(aliases, name, command)| == |aliases|
    ensures forall i | 0 <= i < |aliases| ::
      && WithCommand(aliases, name, command)[i].name == aliases[i].name
      && WithCommand(aliases, name, command)[i].command == (if aliases[i].name == name then command else aliases[i].command)
  {
  }

  /** Since names are untouched, a sorted list stays sorted under updates. */
  lemma WithCommandKeepsSorted(aliases: seq<AliasItem>, name: string, command: string)
    requires SortedByName(aliases)
    ensures SortedByName(WithCommand(aliases, name, command))
  {
    WithCommandFrame(aliases, name, command);
  }

  /** Removing drops exactly the aliases with that name, keeps every other occurrence, and is idempotent. */
  lemma WithoutNameDrops(aliases: seq<AliasItem>, name: string, a: AliasItem)
    ensures a in WithoutName(aliases, name) <==> a in aliases && a.name != name
    ensures a.name != name ==> multiset(WithoutName(aliases, name))[a] == multiset(aliases)[a]
    ensures WithoutName(WithoutName(aliases, name), name) == WithoutName(aliases, name)
  {
    FilterMembership((a: AliasItem) => a.name != name, aliases, a);
    FilterCounts((a: AliasItem) => a.name != name, aliases, a);
    FilterIdempotent((a: AliasItem) => a.name != name, aliases);
  }

  lemma ConsSorted(x: AliasItem, r: seq<AliasItem>)
    requires SortedByName(r) && forall y | y in r :: LexLe(x.name, y.name)
    ensures SortedByName([x] + r)
  {
    var u := [x] + r;
    forall i, j | 0 <= i < j < |u| ensures LexLe(u[i].name, u[j].name) {
      assert u[j] == r[j - 1] && u[j] in r;
      if i > 0 { assert u[i] == r[i - 1]; }
    }
  }

  /** Removing from a sorted list leaves it sorted. */
  lemma {:induction false} WithoutNameKeepsSorted(aliases: seq<AliasItem>, name: string)
    requires SortedByName(aliases)
    ensures SortedByName(WithoutName(aliases, name))
  {
    if aliases != [] {
      var t := aliases[1..];
      assert SortedByName(t);
      WithoutNameKeepsSorted(t, name);
      var r := WithoutName(t, name);
      assert WithoutName(aliases, name) == (if aliases[0].name != name then [aliases[0]] else []) + r;
      forall y | y in r ensures LexLe(aliases[0].name, y.name) {
        var k :| 0 <= k < |t| && t[k] == y;
        assert aliases[k + 1] == y;
      }
      ConsSorted(aliases[0], r);
    }
  }

  // ---------------------------------------------------------------- the store

  class Store {
    var aliases: seq<AliasItem>

    constructor()
      ensures aliases == InitialAliases()
    {
      aliases := InitialAliases();
    }

    method AddAlias(item: AliasItem)
      modifies this
      ensures aliases == WithAlias(old(aliases), item)
    {
      aliases := WithAlias(aliases, item);
    }

    method UpdateAlias(name: string, command: string)
      modifies this
      ensures aliases == WithCommand(old(aliases), name, command)
    {
      aliases := WithCommand(aliases, name, command);
    }

    method RemoveAlias(name: string)
      modifies this
      ensures aliases == WithoutName(old(aliases), name)
    {
      aliases := WithoutName(aliases, name);
    }
  }
}
