/**
  The `Aliases` class of the portal: a postfix-style alias file held as an
  insertion-ordered table from alias name to member users, plus the incrementally
  maintained index from a user to the personal aliases (single-member aliases) it owns.
  An alias with one member is a personal alias; one with two or more is a mailing list.
*/
module Aliases {
  import opened Wrappers
  import opened Text

  /** The messages the class throws. */
  datatype Error =
    | InvalidLine          // 'Invalid line'
    | AliasAlreadyExists   // 'Alias already exists'
    | NotOwnedByUser       // 'Alias is not owned by user'
    | TooFewMembers        // 'Mailing list must have at least two members'
    | NotAMailingList      // 'Alias is not a mailing list'
    | NotAMember           // 'User is not a member of the mailing list'
    | AlreadyAMember       // 'User is already a member of the mailing list'

  /** One logical line of the alias file: a name and the users its mail goes to. */
  datatype Alias = Alias(name: string, members: seq<string>)

  /** `this.aliases`, in the order `for…in` visits its keys (insertion order). */
  type Table = seq<Alias>

  /** One `Aliases` object: the table and `userAlternativeNames`. */
  datatype Store = Store(table: Table, index: map<string, seq<string>>)

  // ---------------------------------------------------------------------------
  // The table as an ordered map

  function Names(t: Table): seq<string> {
    seq(|t|, i requires 0 <= i < |t| => t[i].name)
  }

  predicate UniqueNames(t: Table) {
    forall i, j :: 0 <= i < j < |t| ==> t[i].name != t[j].name
  }

  lemma NamesCons(t: Table)
    requires |t| > 0
    ensures Names(t) == [t[0].name] + Names(t[1..])
  {
  }

  lemma UniqueCons(t: Table)
    requires |t| > 0
    ensures UniqueNames(t) <==> t[0].name !in Names(t[1..]) && UniqueNames(t[1..])
  {
    if t[0].name !in Names(t[1..]) && UniqueNames(t[1..]) {
      forall i, j | 0 <= i < j < |t|
        ensures t[i].name != t[j].name
      {
        if i == 0 {
          assert Names(t[1..])[j - 1] == t[j].name;
        } else {
          assert t[1..][i - 1] == t[i] && t[1..][j - 1] == t[j];
        }
      }
    }
  }

  /** `this.aliases[name]`: the members of the (first) alias called `name`, if any. */
  function Find(t: Table, name: string): (r: Option<seq<string>>)
    ensures r.None? <==> name !in Names(t)
    ensures r.Some? ==> Alias(name, r.value) in t
  {
    if |t| == 0 then None
    else
      NamesCons(t);
      if t[0].name == name then Some(t[0].members) else Find(t[1..], name)
  }

  /** With unique names, the alias stored at a position is the one `Find` reports. */
  lemma {:induction false} FindAt(t: Table, i: int)
    requires UniqueNames(t) && 0 <= i < |t|
    ensures Find(t, t[i].name) == Some(t[i].members)
    decreases |t|
  {
    if i > 0 {
      UniqueCons(t);
      assert t[0].name != t[i].name;
      FindAt(t[1..], i - 1);
    }
  }

  /** Where the (first) alias called `name` sits in the table. */
  function Position(t: Table, name: string): (p: nat)
    requires name in Names(t)
    ensures p < |t| && t[p].name == name
    ensures forall i :: 0 <= i < p ==> t[i].name != name
  {
    NamesCons(t);
    if t[0].name == name then 0 else 1 + Position(t[1..], name)
  }

  /** `this.aliases[name] = members`: overwrite in place, or append a new key. */
  function Put(t: Table, name: string, members: seq<string>): Table {
    if |t| == 0 then [Alias(name, members)]
    else if t[0].name == name then [Alias(name, members)] + t[1..]
    else [t[0]] + Put(t[1..], name, members)
  }

  lemma {:induction false} PutFind(t: Table, name: string, members: seq<string>)
    ensures Find(Put(t, name, members), name) == Some(members)
    ensures forall n :: n != name ==> Find(Put(t, name, members), n) == Find(t, n)
    decreases |t|
  {
    if |t| > 0 && t[0].name != name {
      var r := Put(t, name, members);
      assert r[0] == t[0] && r[1..] == Put(t[1..], name, members);
      PutFind(t[1..], name, members);
    }
  }

  lemma {:induction false} PutNames(t: Table, name: string, members: seq<string>)
    ensures forall n :: n in Names(Put(t, name, members)) <==> n in Names(t) || n == name
    ensures UniqueNames(t) ==> UniqueNames(Put(t, name, members))
    decreases |t|
  {
    var r := Put(t, name, members);
    if |t| == 0 {
      NamesCons(r);
    } else {
      NamesCons(t);
      UniqueCons(t);
      NamesCons(r);
      UniqueCons(r);
      if t[0].name != name {
        assert r[0] == t[0] && r[1..] == Put(t[1..], name, members);
        PutNames(t[1..], name, members);
      } else {
        assert r[1..] == t[1..];
      }
    }
  }

  lemma {:induction false} PutNew(t: Table, name: string, members: seq<string>)
    requires name !in Names(t)
    ensures Put(t, name, members) == t + [Alias(name, members)]
    decreases |t|
  {
    if |t| > 0 {
      NamesCons(t);
      PutNew(t[1..], name, members);
      assert t == [t[0]] + t[1..];
    }
  }

  /** Overwriting an existing key keeps its position: only that entry changes. */
  lemma {:induction false} PutAt(t: Table, name: string, members: seq<string>)
    requires name in Names(t)
    ensures Put(t, name, members) == t[Position(t, name) := Alias(name, members)]
    decreases |t|
  {
    NamesCons(t);
    if t[0].name != name {
      PutAt(t[1..], name, members);
      assert t == [t[0]] + t[1..];
    }
  }

  /** `delete this.aliases[name]`. */
  function Delete(t: Table, name: string): (r: Table)
    ensures Find(r, name) == None
    ensures forall n :: n != name ==> Find(r, n) == Find(t, n)
    ensures forall n :: n in Names(r) <==> n in Names(t) && n != name
    ensures UniqueNames(t) ==> UniqueNames(r)
    ensures forall i :: 0 <= i < |r| ==> r[i] in t
  {
    if |t| == 0 then []
    else
      NamesCons(t);
      UniqueCons(t);
      var rest := Delete(t[1..], name);
      if t[0].name == name then rest
      else
        var r := [t[0]] + rest;
        NamesCons(r);
        UniqueCons(r);
        assert r[1..] == rest;
        r
  }

  /** `index[user] ?? []`. */
  function Lookup(index: map<string, seq<string>>, user: string): seq<string> {
    if user in index then index[user] else []
  }

  /** `xs.splice(xs.indexOf(x), 1)` when `x` occurs, else `xs` unchanged. */
  function RemoveFirst(xs: seq<string>, x: string): (r: seq<string>)
    ensures x in xs ==> exists i :: 0 <= i < |xs| && xs[i] == x && x !in xs[..i] && r == xs[..i] + xs[i + 1..]
    ensures x in xs ==> |r| == |xs| - 1 && multiset(r) == multiset(xs) - multiset{x}
    ensures x !in xs ==> r == xs
  {
    if |xs| == 0 then []
    else if xs[0] == x then
      SpliceAt(xs, 0);
      xs[1..]
    else
      var rest := RemoveFirst(xs[1..], x);
      SpliceTail(xs, x, rest);
      [xs[0]] + rest
  }

  /** Taking out the element at `i` removes exactly one copy of it. */
  lemma SpliceAt(xs: seq<string>, i: nat)
    requires i < |xs|
    ensures |xs[..i] + xs[i + 1..]| == |xs| - 1
    ensures multiset(xs[..i] + xs[i + 1..]) == multiset(xs) - multiset{xs[i]}
    ensures i == 0 ==> xs[..i] + xs[i + 1..] == xs[1..]
  {
    assert xs == xs[..i] + [xs[i]] + xs[i + 1..];
  }

  /** Splicing the first `x` out of the tail, behind a different head, splices it out of the whole. */
  lemma SpliceTail(xs: seq<string>, x: string, rest: seq<string>)
    requires |xs| > 0 && xs[0] != x
    requires x in xs[1..] ==> exists j :: 0 <= j < |xs[1..]| && xs[1..][j] == x && x !in xs[1..][..j]
                                 && rest == xs[1..][..j] + xs[1..][j + 1..]
    requires x !in xs[1..] ==> rest == xs[1..]
    ensures x in xs ==> exists i :: 0 <= i < |xs| && xs[i] == x && x !in xs[..i] && [xs[0]] + rest == xs[..i] + xs[i + 1..]
    ensures x in xs ==> |[xs[0]] + rest| == |xs| - 1 && multiset([xs[0]] + rest) == multiset(xs) - multiset{x}
    ensures x !in xs ==> [xs[0]] + rest == xs
  {
    assert xs == [xs[0]] + xs[1..];
    if x in xs {
      assert x in xs[1..];
      var j :| 0 <= j < |xs[1..]| && xs[1..][j] == x && x !in xs[1..][..j] && rest == xs[1..][..j] + xs[1..][j + 1..];
      SpliceShift(xs, x, j, rest);
    }
  }

  /** The first `x` at `j` in the tail is the first `x` at `j + 1` in the whole. */
  lemma SpliceShift(xs: seq<string>, x: string, j: nat, rest: seq<string>)
    requires j + 1 < |xs| && xs[0] != x && xs[j + 1] == x && x !in xs[1..][..j]
    requires rest == xs[1..][..j] + xs[1..][j + 1..]
    ensures x !in xs[..j + 1] && [xs[0]] + rest == xs[..j + 1] + xs[j + 2..]
    ensures |[xs[0]] + rest| == |xs| - 1 && multiset([xs[0]] + rest) == multiset(xs) - multiset{x}
  {
    SliceShift(xs, j);
    ConsAssoc(xs[0], xs[1..][..j], xs[j + 2..]);
    SpliceAt(xs, j + 1);
  }

  lemma SliceShift<T>(xs: seq<T>, j: nat)
    requires j + 1 < |xs|
    ensures xs[..j + 1] == [xs[0]] + xs[1..][..j] && xs[1..][j + 1..] == xs[j + 2..]
  {
  }

  lemma ConsAssoc<T>(x: T, a: seq<T>, b: seq<T>)
    ensures [x] + (a + b) == ([x] + a) + b
  {
  }

  /** Splicing index `p` out behind the head is splicing `p - 1` out of the tail. */
  lemma SpliceCons<T>(t: seq<T>, p: nat)
    requires 1 <= p < |t|
    ensures [t[0]] + (t[1..][..p - 1] + t[1..][p..]) == t[..p] + t[p + 1..]
  {
    assert t[..p] == [t[0]] + t[1..][..p - 1];
    assert t[1..][p..] == t[p + 1..];
  }

  /** The names of the aliases whose only member is `user`, in table order. */
  function PersonalNames(t: Table, user: string): seq<string> {
    if |t| == 0 then []
    else (if t[0].members == [user] then [t[0].name] else []) + PersonalNames(t[1..], user)
  }

  // ---------------------------------------------------------------------------
  // The store invariant

  /**
    What every operation keeps: names are unique, every alias has a member, and the
    index lists, for every user, exactly that user's personal aliases in table order.
  */
  ghost predicate Valid(s: Store) {
    && UniqueNames(s.table)
    && (forall i :: 0 <= i < |s.table| ==> |s.table[i].members| >= 1)
    && (forall u :: Lookup(s.index, u) == PersonalNames(s.table, u))
  }

  lemma {:induction false} PersonalNamesAppend(t: Table, a: Alias, u: string)
    ensures PersonalNames(t + [a], u)
         == PersonalNames(t, u) + (if a.members == [u] then [a.name] else [])
    decreases |t|
  {
    if |t| == 0 {
      assert t + [a] == [a];
    } else {
      assert (t + [a])[1..] == t[1..] + [a];
      PersonalNamesAppend(t[1..], a, u);
    }
  }

  lemma {:induction false} PersonalNamesAreNames(t: Table, u: string, x: string)
    requires x in PersonalNames(t, u)
    ensures Find(t, x) == Some([u]) || (x in Names(t) && !UniqueNames(t))
    ensures x in Names(t)
    decreases |t|
  {
    NamesCons(t);
    UniqueCons(t);
    if t[0].members == [u] && x == t[0].name {
    } else {
      PersonalNamesAreNames(t[1..], u, x);
    }
  }

  /** With unique names, the personal aliases of `u` are exactly those whose members are `[u]`. */
  lemma {:induction false} PersonalNamesExact(t: Table, u: string, x: string)
    requires UniqueNames(t)
    ensures x in PersonalNames(t, u) <==> Find(t, x) == Some([u])
    decreases |t|
  {
    if |t| > 0 {
      UniqueCons(t);
      NamesCons(t);
      PersonalNamesExact(t[1..], u, x);
    }
  }

  lemma {:induction false} PersonalNamesDelete(t: Table, name: string, u: string)
    requires UniqueNames(t)
    ensures PersonalNames(Delete(t, name), u) == RemoveFirst(PersonalNames(t, u), name)
    decreases |t|
  {
    if |t| > 0 {
      UniqueCons(t);
      NamesCons(t);
      var rest := Delete(t[1..], name);
      var pt := PersonalNames(t[1..], u);
      var head := if t[0].members == [u] then [t[0].name] else [];
      assert PersonalNames(t, u) == head + pt;
      PersonalNamesDelete(t[1..], name, u);
      if t[0].name == name {
        DeleteAbsent(t[1..], name);
        assert Delete(t, name) == t[1..];
        assert name !in pt by {
          if name in pt { PersonalNamesAreNames(t[1..], u, name); }
        }
        if t[0].members == [u] {
          assert head + pt == [name] + pt;
        } else {
          assert head + pt == pt;
        }
      } else {
        var d := [t[0]] + rest;
        assert Delete(t, name) == d;
        assert d[0] == t[0] && d[1..] == rest;
        assert PersonalNames(d, u) == head + PersonalNames(rest, u);
        if t[0].members == [u] {
          assert RemoveFirst(head + pt, name) == head + RemoveFirst(pt, name) by {
            assert (head + pt)[0] == t[0].name && (head + pt)[1..] == pt;
          }
        } else {
          assert head + pt == pt;
        }
      }
    }
  }

  lemma {:induction false} DeleteAbsent(t: Table, name: string)
    requires name !in Names(t)
    ensures Delete(t, name) == t
    decreases |t|
  {
    if |t| > 0 {
      assert Names(t)[0] == t[0].name;
      assert name !in Names(t[1..]) by {
        NamesCons(t);
      }
      DeleteAbsent(t[1..], name);
      DeleteKeepsHead(t, name);
      assert t == [t[0]] + t[1..];
    }
  }

  lemma DeleteKeepsHead(t: Table, name: string)
    requires |t| > 0 && t[0].name != name
    ensures Delete(t, name) == [t[0]] + Delete(t[1..], name)
  {
  }

  /** Deleting a key takes out its one entry and keeps the others in order. */
  lemma DeleteAt(t: Table, name: string)
    requires name in Names(t)
    ensures UniqueNames(t) ==> Delete(t, name) == t[..Position(t, name)] + t[Position(t, name) + 1..]
  {
    if UniqueNames(t) {
      DeleteAtUnique(t, name);
    }
  }

  lemma {:induction false} DeleteAtUnique(t: Table, name: string)
    requires name in Names(t) && UniqueNames(t)
    ensures Delete(t, name) == t[..Position(t, name)] + t[Position(t, name) + 1..]
    decreases |t|
  {
    NamesCons(t);
    UniqueCons(t);
    if t[0].name == name {
      DeleteAbsent(t[1..], name);
      assert t[..0] == [];
    } else {
      var p := Position(t, name);
      assert Position(t[1..], name) == p - 1;
      DeleteAtUnique(t[1..], name);
      DeleteKeepsHead(t, name);
      SpliceCons(t, p);
    }
  }

  /** Deleting an alias that is nobody's personal alias leaves every personal list alone. */
  lemma {:induction false} PersonalNamesDeleteList(t: Table, name: string, u: string)
    requires UniqueNames(t)
    requires Find(t, name).Some? ==> |Find(t, name).value| != 1
    ensures PersonalNames(Delete(t, name), u) == PersonalNames(t, u)
  {
    PersonalNamesDelete(t, name, u);
    if name in PersonalNames(t, u) {
      PersonalNamesExact(t, u, name);
    }
  }

  /** Overwriting or adding an alias with a member list of length other than one. */
  lemma {:induction false} PersonalNamesPutList(t: Table, name: string, ms: seq<string>, u: string)
    requires |ms| != 1
    requires Find(t, name).Some? ==> |Find(t, name).value| != 1
    ensures PersonalNames(Put(t, name, ms), u) == PersonalNames(t, u)
    decreases |t|
  {
    if |t| > 0 {
      NamesCons(t);
      if t[0].name == name {
        assert Put(t, name, ms) == [Alias(name, ms)] + t[1..];
        assert Put(t, name, ms)[1..] == t[1..];
      } else {
        PersonalNamesPutList(t[1..], name, ms, u);
        assert Put(t, name, ms)[1..] == Put(t[1..], name, ms);
      }
    }
  }

  // ---------------------------------------------------------------------------
  // Queries

  /** `this.aliases[alias] ?? []`. */
  function MembersOf(s: Store, alias: string): seq<string> {
    match Find(s.table, alias)
    case Some(ms) => ms
    case None => []
  }

  /** `aliasExists`: `alias in this.aliases`. */
  function AliasExists(s: Store, alias: string): (r: bool)
    ensures r <==> alias in Names(s.table)
    ensures r <==> exists i :: 0 <= i < |s.table| && s.table[i].name == alias
  {
    InNames(s.table, alias);
    Find(s.table, alias).Some?
  }

  lemma InNames(t: Table, n: string)
    ensures n in Names(t) <==> exists i :: 0 <= i < |t| && t[i].name == n
  {
    if n in Names(t) {
      var i :| 0 <= i < |t| && Names(t)[i] == n;
      assert t[i].name == n;
    }
    if exists i :: 0 <= i < |t| && t[i].name == n {
      var i :| 0 <= i < |t| && t[i].name == n;
      assert Names(t)[i] == n;
    }
  }

  /** `mailingListExists`: the alias has at least two members. */
  function MailingListExists(s: Store, alias: string): (r: bool)
    ensures r ==> AliasExists(s, alias)
    ensures UniqueNames(s.table) ==>
      (r <==> exists i :: 0 <= i < |s.table| && s.table[i].name == alias && |s.table[i].members| >= 2)
  {
    FindAtEvery(s.table, alias);
    |MembersOf(s, alias)| >= 2
  }

  lemma FindAtEvery(t: Table, name: string)
    ensures UniqueNames(t) ==>
      forall i :: 0 <= i < |t| && t[i].name == name ==> Find(t, name) == Some(t[i].members)
  {
    if UniqueNames(t) {
      forall i | 0 <= i < |t| && t[i].name == name
        ensures Find(t, name) == Some(t[i].members)
      {
        FindAt(t, i);
      }
    }
  }

  /** `getPersonalAliases`. */
  function GetPersonalAliases(s: Store, user: string): (r: seq<string>)
    ensures user !in s.index ==> r == []
    ensures Valid(s) ==> forall x :: x in r <==> Find(s.table, x) == Some([user])
  {
    IndexExact(s, user);
    Lookup(s.index, user)
  }

  lemma IndexExact(s: Store, user: string)
    ensures Valid(s) ==> forall x :: x in Lookup(s.index, user) <==> Find(s.table, x) == Some([user])
  {
    if Valid(s) {
      forall x
        ensures x in Lookup(s.index, user) <==> Find(s.table, x) == Some([user])
      {
        PersonalNamesExact(s.table, user, x);
      }
    }
  }

  function ListNames(t: Table): (r: seq<string>)
    ensures forall n :: n in r ==> n in Names(t)
  {
    if |t| == 0 then []
    else
      NamesCons(t);
      (if |t[0].members| >= 2 then [t[0].name] else []) + ListNames(t[1..])
  }

  /** `getMailingLists`: the names of the aliases with at least two members, in table order. */
  function GetMailingLists(s: Store): (r: seq<string>)
    ensures forall n :: n in r ==> n in Names(s.table)
    ensures UniqueNames(s.table) ==> forall n :: n in r <==> MailingListExists(s, n)
    ensures UniqueNames(s.table) ==>
      forall i, j :: 0 <= i < j < |r| ==> Position(s.table, r[i]) < Position(s.table, r[j])
  {
    ListNamesEvery(s);
    ListNamesOrdered(s.table);
    ListNames(s.table)
  }

  /** The lists come out once each, in the order of the table. */
  lemma ListNamesOrdered(t: Table)
    ensures UniqueNames(t) ==>
      forall i, j :: 0 <= i < j < |ListNames(t)| ==> Position(t, ListNames(t)[i]) < Position(t, ListNames(t)[j])
  {
    if UniqueNames(t) {
      ListNamesInOrder(t);
    }
  }

  /** Every name of `r` is a key of `t`, and `r` lists them by increasing position. */
  ghost predicate InTableOrder(t: Table, r: seq<string>) {
    && (forall n :: n in r ==> n in Names(t))
    && forall i, j :: 0 <= i < j < |r| ==> Position(t, r[i]) < Position(t, r[j])
  }

  lemma {:induction false} ListNamesInOrder(t: Table)
    requires UniqueNames(t)
    ensures InTableOrder(t, ListNames(t))
    decreases |t|
  {
    if |t| > 0 {
      UniqueCons(t);
      ListNamesInOrder(t[1..]);
      var head := if |t[0].members| >= 2 then [t[0].name] else [];
      assert ListNames(t) == head + ListNames(t[1..]);
      InTableOrderCons(t, head, ListNames(t[1..]));
    }
  }

  /** Putting the first key of the table in front of names from the rest keeps table order. */
  lemma InTableOrderCons(t: Table, head: seq<string>, rest: seq<string>)
    requires |t| > 0 && UniqueNames(t)
    requires head == [] || head == [t[0].name]
    requires InTableOrder(t[1..], rest)
    ensures InTableOrder(t, head + rest)
  {
    UniqueCons(t);
    NamesCons(t);
    forall n | n in rest
      ensures n in Names(t) && n != t[0].name && Position(t, n) == 1 + Position(t[1..], n)
    {
    }
    forall i, j | 0 <= i < j < |head + rest|
      ensures Position(t, (head + rest)[i]) < Position(t, (head + rest)[j])
    {
      assert (head + rest)[j] == rest[j - |head|];
      if i >= |head| {
        assert (head + rest)[i] == rest[i - |head|];
      } else {
        assert (head + rest)[i] == t[0].name;
      }
    }
  }


  lemma ListNamesEvery(s: Store)
    ensures UniqueNames(s.table) ==> forall n :: n in ListNames(s.table) <==> MailingListExists(s, n)
  {
    if UniqueNames(s.table) {
      forall n
        ensures n in ListNames(s.table) <==> MailingListExists(s, n)
      {
        ListNamesExact(s.table, n);
      }
    }
  }

  lemma {:induction false} ListNamesExact(t: Table, n: string)
    requires UniqueNames(t)
    ensures n in ListNames(t) <==> Find(t, n).Some? && |Find(t, n).value| >= 2
    decreases |t|
  {
    if |t| > 0 {
      UniqueCons(t);
      NamesCons(t);
      ListNamesExact(t[1..], n);
    }
  }

  /** `getMailingListMembers`. */
  function GetMailingListMembers(s: Store, alias: string): (r: Result<seq<string>, Error>)
    ensures r.Err? <==> !MailingListExists(s, alias)
    ensures r.Err? ==> r.error == NotAMailingList
    ensures r.Ok? ==> Find(s.table, alias) == Some(r.value) && |r.value| >= 2
  {
    var users := MembersOf(s, alias);
    if |users| < 2 then Err(NotAMailingList) else Ok(users)
  }

  // ---------------------------------------------------------------------------
  // Mutations

  /** `addPersonalAlias(user, alias)`. */
  function AddPersonalAlias(s: Store, user: string, alias: string): (r: Result<Store, Error>)
    ensures r.Err? <==> AliasExists(s, alias)
    ensures r.Err? ==> r.error == AliasAlreadyExists
    ensures r.Ok? ==>
      && Find(r.value.table, alias) == Some([user])
      && (forall n :: n != alias ==> Find(r.value.table, n) == Find(s.table, n))
      && r.value.table == s.table + [Alias(alias, [user])]
      && GetPersonalAliases(r.value, user) == GetPersonalAliases(s, user) + [alias]
      && (forall v :: v != user ==> Lookup(r.value.index, v) == Lookup(s.index, v))
  {
    if AliasExists(s, alias) then Err(AliasAlreadyExists)
    else
      PutFind(s.table, alias, [user]);
      PutNew(s.table, alias, [user]);
      Ok(Store(Put(s.table, alias, [user]), s.index[user := Lookup(s.index, user) + [alias]]))
  }

  /** `removePersonalAlias(user, alias)`. */
  function RemovePersonalAlias(s: Store, user: string, alias: string): (r: Result<Store, Error>)
    ensures !AliasExists(s, alias) ==> r == Ok(s)
    ensures r.Err? <==> AliasExists(s, alias) && Find(s.table, alias) != Some([user])
    ensures r.Err? ==> r.error == NotOwnedByUser
    ensures r.Ok? && AliasExists(s, alias) ==>
      && !AliasExists(r.value, alias)
      && (forall n :: n != alias ==> Find(r.value.table, n) == Find(s.table, n))
      && (UniqueNames(s.table) ==>
            r.value.table == s.table[..Position(s.table, alias)] + s.table[Position(s.table, alias) + 1..])
      && Lookup(r.value.index, user) == RemoveFirst(Lookup(s.index, user), alias)
      && (forall v :: v != user ==> Lookup(r.value.index, v) == Lookup(s.index, v))
  {
    match Find(s.table, alias)
    case None => Ok(s)
    case Some(users) =>
      if |users| != 1 || users[0] != user then Err(NotOwnedByUser)
      else
        assert users == [user];
        DeleteAt(s.table, alias);
        RemovedPersonal(s, user, alias);
        Ok(Store(Delete(s.table, alias), s.index[user := RemoveFirst(Lookup(s.index, user), alias)]))
  }

  lemma RemovedPersonal(s: Store, user: string, alias: string)
    ensures var r := Store(Delete(s.table, alias), s.index[user := RemoveFirst(Lookup(s.index, user), alias)]);
      && !AliasExists(r, alias)
      && (forall n :: n != alias ==> Find(r.table, n) == Find(s.table, n))
      && Lookup(r.index, user) == RemoveFirst(Lookup(s.index, user), alias)
      && (forall v :: v != user ==> Lookup(r.index, v) == Lookup(s.index, v))
  {
  }

  /** `createMailingList(alias, users)`. */
  function CreateMailingList(s: Store, alias: string, users: seq<string>): (r: Result<Store, Error>)
    ensures r.Err? <==> AliasExists(s, alias) || |users| < 2
    ensures r.Err? ==> r.error == (if AliasExists(s, alias) then AliasAlreadyExists else TooFewMembers)
    ensures r.Ok? ==>
      && r.value.table == s.table + [Alias(alias, users)]
      && Find(r.value.table, alias) == Some(users)
      && (forall n :: n != alias ==> Find(r.value.table, n) == Find(s.table, n))
      && r.value.index == s.index
      && MailingListExists(r.value, alias)
  {
    if AliasExists(s, alias) then Err(AliasAlreadyExists)
    else if |users| < 2 then Err(TooFewMembers)
    else
      PutFind(s.table, alias, users);
      PutNew(s.table, alias, users);
      Ok(s.(table := Put(s.table, alias, users)))
  }

  /** `removeMailingListMember(alias, user)`: a list that would drop below two members is deleted. */
  function RemoveMailingListMember(s: Store, alias: string, user: string): (r: Result<Store, Error>)
    ensures r.Err? <==> !MailingListExists(s, alias) || user !in MembersOf(s, alias)
    ensures r.Err? ==> r.error == (if !MailingListExists(s, alias) then NotAMailingList else NotAMember)
    ensures r.Ok? ==>
      && (forall n :: n != alias ==> Find(r.value.table, n) == Find(s.table, n))
      && r.value.index == s.index
      && (Find(r.value.table, alias).None? <==> |MembersOf(s, alias)| == 2)
      && (Find(r.value.table, alias).Some? ==>
            && Find(r.value.table, alias).value == RemoveFirst(MembersOf(s, alias), user)
            && |Find(r.value.table, alias).value| >= 2
            && multiset(Find(r.value.table, alias).value) == multiset(MembersOf(s, alias)) - multiset{user})
      && alias in Names(s.table)
      && (Find(r.value.table, alias).Some? ==>
            r.value.table == s.table[Position(s.table, alias) := Alias(alias, RemoveFirst(MembersOf(s, alias), user))])
      && (Find(r.value.table, alias).None? && UniqueNames(s.table) ==>
            r.value.table == s.table[..Position(s.table, alias)] + s.table[Position(s.table, alias) + 1..])
  {
    var users := MembersOf(s, alias);
    if |users| < 2 then Err(NotAMailingList)
    else if user !in users then Err(NotAMember)
    else
      var rest := RemoveFirst(users, user);
      PutFind(s.table, alias, rest);
      if |rest| < 2 then
        DeleteAt(s.table, alias);
        Ok(s.(table := Delete(s.table, alias)))
      else
        PutAt(s.table, alias, rest);
        Ok(s.(table := Put(s.table, alias, rest)))
  }

  /** `addMailingListMember(alias, user)`: appends a new member to an existing list. */
  function AddMailingListMember(s: Store, alias: string, user: string): (r: Result<Store, Error>)
    ensures r.Err? <==> !MailingListExists(s, alias) || user in MembersOf(s, alias)
    ensures r.Err? ==> r.error == (if !MailingListExists(s, alias) then NotAMailingList else AlreadyAMember)
    ensures r.Ok? ==>
      && Find(r.value.table, alias) == Some(MembersOf(s, alias) + [user])
      && (forall n :: n != alias ==> Find(r.value.table, n) == Find(s.table, n))
      && r.value.index == s.index
      && alias in Names(s.table)
      && r.value.table == s.table[Position(s.table, alias) := Alias(alias, MembersOf(s, alias) + [user])]
  {
    var users := MembersOf(s, alias);
    if |users| < 2 then Err(NotAMailingList)
    else if user in users then Err(AlreadyAMember)
    else
      PutFind(s.table, alias, users + [user]);
      PutAt(s.table, alias, users + [user]);
      Ok(s.(table := Put(s.table, alias, users + [user])))
  }

  /** `removeMailingList(alias)`. */
  function RemoveMailingList(s: Store, alias: string): (r: Result<Store, Error>)
    ensures r.Err? <==> !MailingListExists(s, alias)
    ensures r.Err? ==> r.error == NotAMailingList
    ensures r.Ok? ==>
      && !AliasExists(r.value, alias)
      && (forall n :: n != alias ==> Find(r.value.table, n) == Find(s.table, n))
      && r.value.index == s.index
      && alias in Names(s.table)
      && (UniqueNames(s.table) ==>
            r.value.table == s.table[..Position(s.table, alias)] + s.table[Position(s.table, alias) + 1..])
  {
    if |MembersOf(s, alias)| < 2 then Err(NotAMailingList)
    else
      DeleteAt(s.table, alias);
      Ok(s.(table := Delete(s.table, alias)))
  }

  // ---------------------------------------------------------------------------
  // Every mutation keeps the store invariant

  lemma AddPersonalAliasValid(s: Store, user: string, alias: string)
    requires Valid(s) && AddPersonalAlias(s, user, alias).Ok?
    ensures Valid(AddPersonalAlias(s, user, alias).value)
  {
    var a := Alias(alias, [user]);
    assert alias !in Names(s.table);
    PutNew(s.table, alias, [user]);
    PutNames(s.table, alias, [user]);
    SnocValid(s, a);
  }

  /** Appending a one-member alias under a new name and indexing it keeps the store valid. */
  lemma SnocValid(s: Store, a: Alias)
    requires Valid(s) && |a.members| == 1 && a.name !in Names(s.table)
    requires UniqueNames(s.table + [a])
    ensures var u := a.members[0];
            Valid(Store(s.table + [a], s.index[u := Lookup(s.index, u) + [a.name]]))
  {
    var r := Store(s.table + [a], s.index[a.members[0] := Lookup(s.index, a.members[0]) + [a.name]]);
    forall i | 0 <= i < |r.table|
      ensures |r.table[i].members| >= 1
    {
      if i < |s.table| { assert r.table[i] == s.table[i]; }
    }
    forall u
      ensures Lookup(r.index, u) == PersonalNames(r.table, u)
    {
      PersonalNamesAppend(s.table, a, u);
    }
  }

  lemma RemovePersonalAliasValid(s: Store, user: string, alias: string)
    requires Valid(s) && RemovePersonalAlias(s, user, alias).Ok?
    ensures Valid(RemovePersonalAlias(s, user, alias).value)
  {
    if AliasExists(s, alias) {
      var r := RemovePersonalAlias(s, user, alias).value;
      assert r.table == Delete(s.table, alias);
      forall u
        ensures Lookup(r.index, u) == PersonalNames(r.table, u)
      {
        PersonalNamesDelete(s.table, alias, u);
        if u != user && alias in PersonalNames(s.table, u) {
          PersonalNamesExact(s.table, u, alias);
        }
      }
    }
  }

  /** Every alias found in a table whose aliases all have members has members. */
  lemma FoundHasMembers(t: Table, n: string)
    requires forall i :: 0 <= i < |t| ==> |t[i].members| >= 1
    requires Find(t, n).Some?
    ensures |Find(t, n).value| >= 1
  {
    var a := Alias(n, Find(t, n).value);
    var j :| 0 <= j < |t| && t[j] == a;
  }

  /** After overwriting `alias` with at least one member, every alias still has members. */
  lemma PutKeepsMembers(t: Table, alias: string, ms: seq<string>)
    requires UniqueNames(t) && |ms| >= 1
    requires forall i :: 0 <= i < |t| ==> |t[i].members| >= 1
    ensures forall i :: 0 <= i < |Put(t, alias, ms)| ==> |Put(t, alias, ms)[i].members| >= 1
  {
    var r := Put(t, alias, ms);
    PutNames(t, alias, ms);
    PutFind(t, alias, ms);
    forall i | 0 <= i < |r|
      ensures |r[i].members| >= 1
    {
      FindAt(r, i);
      if r[i].name != alias {
        FoundHasMembers(t, r[i].name);
      }
    }
  }

  lemma CreateMailingListValid(s: Store, alias: string, users: seq<string>)
    requires Valid(s) && CreateMailingList(s, alias, users).Ok?
    ensures Valid(CreateMailingList(s, alias, users).value)
  {
    var r := CreateMailingList(s, alias, users).value;
    PutNames(s.table, alias, users);
    PutKeepsMembers(s.table, alias, users);
    forall u
      ensures Lookup(r.index, u) == PersonalNames(r.table, u)
    {
      PersonalNamesPutList(s.table, alias, users, u);
    }
  }

  lemma RemoveMailingListMemberValid(s: Store, alias: string, user: string)
    requires Valid(s) && RemoveMailingListMember(s, alias, user).Ok?
    ensures Valid(RemoveMailingListMember(s, alias, user).value)
  {
    var rest := RemoveFirst(MembersOf(s, alias), user);
    if |rest| < 2 {
      assert RemoveMailingListMember(s, alias, user).value == s.(table := Delete(s.table, alias));
      DeleteListValid(s, alias);
    } else {
      assert RemoveMailingListMember(s, alias, user).value == s.(table := Put(s.table, alias, rest));
      PutListValid(s, alias, rest);
    }
  }

  /** Deleting a key whose member list is not of length one keeps the store valid. */
  lemma DeleteListValid(s: Store, alias: string)
    requires Valid(s) && |MembersOf(s, alias)| != 1
    ensures Valid(s.(table := Delete(s.table, alias)))
  {
    var r := s.(table := Delete(s.table, alias));
    forall i | 0 <= i < |r.table|
      ensures |r.table[i].members| >= 1
    {
      assert r.table[i] in s.table;
    }
    forall u
      ensures Lookup(r.index, u) == PersonalNames(r.table, u)
    {
      PersonalNamesDeleteList(s.table, alias, u);
    }
  }

  /** Overwriting a key with a member list of two or more keeps the store valid. */
  lemma PutListValid(s: Store, alias: string, ms: seq<string>)
    requires Valid(s) && |MembersOf(s, alias)| != 1 && |ms| >= 2
    ensures Valid(s.(table := Put(s.table, alias, ms)))
  {
    var r := s.(table := Put(s.table, alias, ms));
    PutNames(s.table, alias, ms);
    PutKeepsMembers(s.table, alias, ms);
    forall u
      ensures Lookup(r.index, u) == PersonalNames(r.table, u)
    {
      PersonalNamesPutList(s.table, alias, ms, u);
    }
  }

  lemma AddMailingListMemberValid(s: Store, alias: string, user: string)
    requires Valid(s) && AddMailingListMember(s, alias, user).Ok?
    ensures Valid(AddMailingListMember(s, alias, user).value)
  {
    var r := AddMailingListMember(s, alias, user).value;
    var ms := MembersOf(s, alias) + [user];
    PutNames(s.table, alias, ms);
    PutKeepsMembers(s.table, alias, ms);
    forall u
      ensures Lookup(r.index, u) == PersonalNames(r.table, u)
    {
      PersonalNamesPutList(s.table, alias, ms, u);
    }
  }

  lemma RemoveMailingListValid(s: Store, alias: string)
    requires Valid(s) && RemoveMailingList(s, alias).Ok?
    ensures Valid(RemoveMailingList(s, alias).value)
  {
    var r := RemoveMailingList(s, alias).value;
    forall u
      ensures Lookup(r.index, u) == PersonalNames(r.table, u)
    {
      PersonalNamesDeleteList(s.table, alias, u);
    }
  }
}
