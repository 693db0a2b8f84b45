/**
  The text form of an `Aliases` object: the constructor's parser (physical lines,
  comments, continuation lines, `name: user user…` entries) and `toString`'s encoder,
  with the round trip between them.
*/
module AliasFile {
  import opened Wrappers
  import opened Text
  import opened Aliases

  // ---------------------------------------------------------------------------
  // Physical lines

  /** `/^\s*#/`: optional leading whitespace, then `#`. */
  predicate IsComment(line: string) {
    var t := TrimStart(line);
    |t| > 0 && t[0] == '#'
  }

  /** `/^\s+/`: the line starts with whitespace and continues the previous logical line. */
  predicate IsContinuation(line: string) {
    |line| > 0 && IsSpace(line[0])
  }

  /** A line that survives the cleaning pass unchanged. */
  predicate Clean(line: string) {
    line != "" && !IsSpace(line[|line| - 1]) && !IsComment(line)
  }

  /** `.map(trimEnd).filter(l => !l.match(/^\s*#/) && l != '')`. */
  function CleanLines(lines: seq<string>): (r: seq<string>)
    ensures |r| <= |lines|
    ensures forall i :: 0 <= i < |r| ==> Clean(r[i])
  {
    if |lines| == 0 then []
    else
      var l := TrimEnd(lines[0]);
      var tail := CleanLines(lines[1..]);
      if l == "" || IsComment(l) then tail
      else
        TrimmedClean(lines[0]);
        ConsClean(l, tail);
        [l] + tail
  }

  /** A trimmed line that is neither empty nor a comment is clean. */
  lemma TrimmedClean(line: string)
    requires TrimEnd(line) != "" && !IsComment(TrimEnd(line))
    ensures Clean(TrimEnd(line))
  {
  }

  lemma ConsClean(l: string, tail: seq<string>)
    requires Clean(l) && forall i :: 0 <= i < |tail| ==> Clean(tail[i])
    ensures forall i :: 0 <= i < |[l] + tail| ==> Clean(([l] + tail)[i])
  {
    ConsEvery(Clean, l, tail);
  }

  lemma ConsEvery<T>(p: T -> bool, x: T, xs: seq<T>)
    requires p(x) && forall i :: 0 <= i < |xs| ==> p(xs[i])
    ensures forall i :: 0 <= i < |[x] + xs| ==> p(([x] + xs)[i])
  {
    forall i | 0 <= i < |[x] + xs| ensures p(([x] + xs)[i]) {
      if i > 0 {
        assert ([x] + xs)[i] == xs[i - 1];
      }
    }
  }

  /** Cleaning already-clean lines changes nothing. */
  lemma {:induction false} CleanLinesKeeps(lines: seq<string>)
    requires forall i :: 0 <= i < |lines| ==> Clean(lines[i])
    ensures CleanLines(lines) == lines
    decreases |lines|
  {
    if |lines| > 0 {
      assert TrimEnd(lines[0]) == lines[0];
      CleanLinesKeeps(lines[1..]);
    }
  }

  /** An empty or whitespace-only line is dropped. */
  lemma CleanLinesDropsBlank(lines: seq<string>, line: string)
    requires forall i :: 0 <= i < |line| ==> IsSpace(line[i])
    ensures CleanLines([line] + lines) == CleanLines(lines)
  {
    assert ([line] + lines)[1..] == lines;
    assert TrimEnd(line) == "";
  }

  /** A line that is a comment once its trailing whitespace is gone is dropped. */
  lemma CleanLinesDropsComment(lines: seq<string>, line: string)
    requires IsComment(TrimEnd(line))
    ensures CleanLines([line] + lines) == CleanLines(lines)
  {
    assert ([line] + lines)[1..] == lines;
  }

  /** Any other line is kept, without its trailing whitespace, ahead of the rest. */
  lemma CleanLinesTrims(lines: seq<string>, line: string)
    requires TrimEnd(line) != "" && !IsComment(TrimEnd(line))
    ensures CleanLines([line] + lines) == [TrimEnd(line)] + CleanLines(lines)
  {
    assert ([line] + lines)[0] == line && ([line] + lines)[1..] == lines;
  }

  // ---------------------------------------------------------------------------
  // Logical lines

  /** All the characters of the lines, in order. */
  function Flatten(xs: seq<string>): string {
    if |xs| == 0 then "" else xs[0] + Flatten(xs[1..])
  }

  lemma {:induction false} FlattenAppend(a: seq<string>, b: seq<string>)
    ensures Flatten(a + b) == Flatten(a) + Flatten(b)
    decreases |a|
  {
    if |a| > 0 {
      assert (a + b)[0] == a[0] && (a + b)[1..] == a[1..] + b;
      FlattenAppend(a[1..], b);
    } else {
      assert a + b == b;
    }
  }

  /** Gluing a line onto the last logical line adds its characters at the end. */
  lemma GlueFlatten(acc: seq<string>, line: string)
    requires |acc| > 0
    ensures Flatten(acc[..|acc| - 1] + [acc[|acc| - 1] + line]) == Flatten(acc) + line
  {
    var init, last := acc[..|acc| - 1], acc[|acc| - 1];
    assert init + [last] == acc;
    GlueLast(init, last, line);
  }

  lemma GlueLast(init: seq<string>, last: string, line: string)
    ensures Flatten(init + [last + line]) == Flatten(init + [last]) + line
  {
    FlattenAppend(init, [last + line]);
    FlattenAppend(init, [last]);
    FlattenOne(last + line);
    FlattenOne(last);
    var f := Flatten(init);
    assert f + (last + line) == (f + last) + line;
  }

  lemma FlattenOne(x: string)
    ensures Flatten([x]) == x
  {
    assert [x][1..] == [];
  }

  /** Starting a new logical line adds its characters at the end. */
  lemma SnocFlatten(acc: seq<string>, line: string)
    ensures Flatten(acc + [line]) == Flatten(acc) + line
  {
    FlattenAppend(acc, [line]);
    FlattenOne(line);
  }

  /** No line continues the one before it. */
  predicate NoContinuation(lines: seq<string>) {
    forall i :: 0 <= i < |lines| ==> !IsContinuation(lines[i])
  }

  lemma NoContinuationTail(lines: seq<string>)
    requires |lines| > 0
    ensures NoContinuation(lines) ==> NoContinuation(lines[1..])
  {
    if NoContinuation(lines) {
      forall i | 0 <= i < |lines[1..]| ensures !IsContinuation(lines[1..][i]) {
        assert lines[1..][i] == lines[i + 1];
      }
    }
  }

  lemma ShiftFirst(acc: seq<string>, lines: seq<string>)
    requires |lines| > 0
    ensures acc + [lines[0]] + lines[1..] == acc + lines
  {
  }

  /**
    The loop that glues continuation lines onto the logical line before them,
    starting from the logical lines `acc` already collected. A continuation line
    with no truthy logical line before it throws 'Invalid line'.
  */
  function Logical(lines: seq<string>, acc: seq<string>): (r: Result<seq<string>, Error>)
    ensures r.Ok? ==> Flatten(r.value) == Flatten(acc) + Flatten(lines)
    ensures r.Err? ==> r.error == InvalidLine
    ensures NoContinuation(lines) ==> r == Ok(acc + lines)
    decreases |lines|
  {
    if |lines| == 0 then
      assert acc + lines == acc;
      Ok(acc)
    else if IsContinuation(lines[0]) then
      if |acc| > 0 && acc[|acc| - 1] != "" then
        GlueFlatten(acc, lines[0]);
        Logical(lines[1..], acc[..|acc| - 1] + [acc[|acc| - 1] + lines[0]])
      else
        Err(InvalidLine)
    else
      SnocFlatten(acc, lines[0]);
      ShiftFirst(acc, lines);
      NoContinuationTail(lines);
      Logical(lines[1..], acc + [lines[0]])
  }

  /** Starting with no logical line, a leading continuation line is rejected. */
  lemma LeadingContinuationFails(lines: seq<string>)
    requires |lines| > 0 && IsContinuation(lines[0])
    ensures Logical(lines, []) == Err(InvalidLine)
  {
  }

  /** A continuation line is glued onto a non-empty logical line before it. */
  lemma ContinuationJoins(first: string, cont: string)
    requires first != "" && !IsContinuation(first) && IsContinuation(cont)
    ensures Logical([first, cont], []) == Ok([first + cont])
  {
    var l := [first, cont];
    assert l[0] == first && l[1..] == [cont] && [] + [first] == [first];
    assert Logical(l, []) == Logical([cont], [first]);
    assert [cont][1..] == [] && [first][..0] + [first + cont] == [first + cont];
    assert Logical([cont], [first]) == Logical([], [first + cont]);
  }

  /**
    Over lines none of which is empty, and starting either with no logical line or
    after a non-empty one, the loop throws exactly when the very first line is a
    continuation with nothing before it.
  */
  lemma {:induction false} LogicalFailsIff(lines: seq<string>, acc: seq<string>)
    requires forall i :: 0 <= i < |lines| ==> lines[i] != ""
    requires |acc| == 0 || acc[|acc| - 1] != ""
    ensures Logical(lines, acc).Err? <==> |acc| == 0 && |lines| > 0 && IsContinuation(lines[0])
    decreases |lines|
  {
    if |lines| > 0 {
      var tail := lines[1..];
      assert forall i :: 0 <= i < |tail| ==> tail[i] != "" by {
        forall i | 0 <= i < |tail| ensures tail[i] != "" { assert tail[i] == lines[i + 1]; }
      }
      if IsContinuation(lines[0]) {
        if |acc| > 0 {
          var acc' := acc[..|acc| - 1] + [acc[|acc| - 1] + lines[0]];
          assert acc'[|acc'| - 1] == acc[|acc| - 1] + lines[0];
          LogicalFailsIff(tail, acc');
        }
      } else {
        var acc' := acc + [lines[0]];
        assert acc'[|acc'| - 1] == lines[0];
        LogicalFailsIff(tail, acc');
      }
    }
  }

  /** The cleaned lines of a file fail to glue exactly when the first one is indented. */
  lemma CleanLogicalFailsIff(lines: seq<string>)
    ensures var c := CleanLines(lines);
            Logical(c, []).Err? <==> |c| > 0 && IsContinuation(c[0])
  {
    LogicalFailsIff(CleanLines(lines), []);
  }

  /** A logical line as the file spells it: a head line and the indented lines under it. */
  datatype Group = Group(head: string, continuations: seq<string>)

  predicate WellFormedGroup(g: Group) {
    && g.head != "" && !IsContinuation(g.head)
    && forall i :: 0 <= i < |g.continuations| ==> IsContinuation(g.continuations[i])
  }

  /** The physical lines of the groups, one after the other. */
  function Physical(gs: seq<Group>): seq<string> {
    if |gs| == 0 then [] else [gs[0].head] + gs[0].continuations + Physical(gs[1..])
  }

  /** The logical line a group stands for: its lines glued end to end. */
  function Glued(g: Group): string {
    g.head + Flatten(g.continuations)
  }

  /** One step of the loop on a continuation line after a non-empty logical line. */
  lemma LogicalGlueStep(lines: seq<string>, acc: seq<string>)
    requires |lines| > 0 && IsContinuation(lines[0]) && |acc| > 0 && acc[|acc| - 1] != ""
    ensures Logical(lines, acc) == Logical(lines[1..], acc[..|acc| - 1] + [acc[|acc| - 1] + lines[0]])
  {
  }

  /** One step of the loop on a line that starts a new logical line. */
  lemma LogicalStartStep(lines: seq<string>, acc: seq<string>)
    requires |lines| > 0 && !IsContinuation(lines[0])
    ensures Logical(lines, acc) == Logical(lines[1..], acc + [lines[0]])
  {
  }

  lemma HeadTail(xs: seq<string>, ys: seq<string>)
    requires |xs| > 0
    ensures (xs + ys)[0] == xs[0] && (xs + ys)[1..] == xs[1..] + ys
  {
  }

  lemma SnocParts(acc: seq<string>, h: string)
    ensures var a := acc + [h]; |a| > 0 && a[..|a| - 1] == acc && a[|a| - 1] == h
  {
  }

  lemma FlattenGlue(h: string, conts: seq<string>)
    requires |conts| > 0
    ensures (h + conts[0]) + Flatten(conts[1..]) == h + Flatten(conts)
  {
  }

  /** A run of continuation lines is glued, in order, onto the non-empty line before it. */
  lemma {:induction false} GlueRun(conts: seq<string>, rest: seq<string>, acc: seq<string>, h: string)
    requires h != ""
    requires forall i :: 0 <= i < |conts| ==> IsContinuation(conts[i])
    ensures Logical(conts + rest, acc + [h]) == Logical(rest, acc + [h + Flatten(conts)])
    decreases |conts|
  {
    if |conts| == 0 {
      assert conts + rest == rest;
      assert h + Flatten(conts) == h;
    } else {
      HeadTail(conts, rest);
      SnocParts(acc, h);
      LogicalGlueStep(conts + rest, acc + [h]);
      GlueRun(conts[1..], rest, acc, h + conts[0]);
      FlattenGlue(h, conts);
    }
  }

  lemma PhysicalCons(gs: seq<Group>)
    requires |gs| > 0
    ensures var p := Physical(gs);
            |p| > 0 && p[0] == gs[0].head && p[1..] == gs[0].continuations + Physical(gs[1..])
  {
    assert Physical(gs) == [gs[0].head] + gs[0].continuations + Physical(gs[1..]);
    HeadRest(gs[0].head, gs[0].continuations, Physical(gs[1..]));
  }

  lemma HeadRest<T>(x: T, b: seq<T>, c: seq<T>)
    ensures ([x] + b + c)[0] == x && ([x] + b + c)[1..] == b + c
  {
  }

  /** The logical lines of the groups, one per group. */
  function GluedAll(gs: seq<Group>): (r: seq<string>)
    ensures |r| == |gs|
    ensures forall j :: 0 <= j < |gs| ==> r[j] == Glued(gs[j])
  {
    if |gs| == 0 then [] else [Glued(gs[0])] + GluedAll(gs[1..])
  }

  lemma GluedAllCons(gs: seq<Group>, acc: seq<string>)
    requires |gs| > 0
    ensures acc + [Glued(gs[0])] + GluedAll(gs[1..]) == acc + GluedAll(gs)
  {
    assert GluedAll(gs) == [Glued(gs[0])] + GluedAll(gs[1..]);
    SnocAssoc(acc, Glued(gs[0]), GluedAll(gs[1..]));
  }

  lemma SnocAssoc<T>(a: seq<T>, x: T, b: seq<T>)
    ensures a + [x] + b == a + ([x] + b)
  {
  }

  lemma WellFormedTail(gs: seq<Group>)
    requires |gs| > 0 && forall j :: 0 <= j < |gs| ==> WellFormedGroup(gs[j])
    ensures forall j :: 0 <= j < |gs[1..]| ==> WellFormedGroup(gs[1..][j])
  {
    forall j | 0 <= j < |gs[1..]| ensures WellFormedGroup(gs[1..][j]) { assert gs[1..][j] == gs[j + 1]; }
  }

  /** Well-formed groups are glued into exactly one logical line each, in order. */
  lemma {:induction false} LogicalGroups(gs: seq<Group>, acc: seq<string>)
    requires forall j :: 0 <= j < |gs| ==> WellFormedGroup(gs[j])
    ensures Logical(Physical(gs), acc) == Ok(acc + GluedAll(gs))
    decreases |gs|
  {
    if |gs| == 0 {
      assert acc + GluedAll(gs) == acc;
    } else {
      PhysicalCons(gs);
      LogicalStartStep(Physical(gs), acc);
      GlueRun(gs[0].continuations, Physical(gs[1..]), acc, gs[0].head);
      assert gs[0].head + Flatten(gs[0].continuations) == Glued(gs[0]);
      WellFormedTail(gs);
      LogicalGroups(gs[1..], acc + [Glued(gs[0])]);
      GluedAllCons(gs, acc);
    }
  }

  // ---------------------------------------------------------------------------
  // Entries

  /**
    One logical line `alias: user user…`: exactly one colon, the name trimmed, the
    users the whitespace-separated tokens after it (possibly none).
  */
  function ParseLine(line: string): (r: Result<Alias, Error>)
    ensures r.Err? <==> CountSep(line, IsColon) != 1
    ensures r.Err? ==> r.error == InvalidLine
    ensures r.Ok? ==> Free(r.value.name, IsColon)
    ensures r.Ok? ==> forall i :: 0 <= i < |r.value.members| ==>
                        r.value.members[i] != "" && Free(r.value.members[i], IsSpace)
    ensures r.Ok? ==> exists pre, post :: line == pre + ":" + post && Free(pre, IsColon)
                        && r.value.name == Trim(pre) && r.value.members == Tokens(post)
  {
    var parts := Split(line, IsColon);
    SplitLength(line, IsColon);
    if |parts| != 2 then Err(InvalidLine)
    else
      assert Free(Trim(parts[0]), IsColon) by {
        var t := Trim(parts[0]);
        var e := TrimEnd(parts[0]);
        assert Free(e, IsColon) by {
          forall i | 0 <= i < |e| ensures !IsColon(e[i]) { assert e[i] == parts[0][i]; }
        }
        forall i | 0 <= i < |t| ensures !IsColon(t[i]) { assert t[i] == e[|e| - |t| + i]; }
      }
      JoinSplit(line, ':', IsColon);
      assert parts[1..] == [parts[1]];
      assert line == parts[0] + ":" + parts[1];
      Ok(Alias(Trim(parts[0]), Tokens(parts[1])))
  }

  /** Every logical line through `ParseLine`; any bad line aborts the parse. */
  function ParseLines(lines: seq<string>): (r: Result<seq<Alias>, Error>)
    ensures r.Ok? <==> forall i :: 0 <= i < |lines| ==> CountSep(lines[i], IsColon) == 1
    ensures r.Ok? ==> |r.value| == |lines|
    ensures r.Ok? ==> forall i :: 0 <= i < |lines| ==> ParseLine(lines[i]) == Ok(r.value[i])
  {
    if forall i | 0 <= i < |lines| :: ParseLine(lines[i]).Ok? then
      Ok(seq(|lines|, i requires 0 <= i < |lines| => ParseLine(lines[i]).value))
    else
      Err(InvalidLine)
  }

  /**
    One parsed entry into the store: an entry without users is skipped; a one-user
    entry also appends its name to that user's personal aliases; then the entry is
    assigned into the table (replacing an earlier entry of the same name in place).
  */
  function Absorb(s: Store, a: Alias): Store {
    if |a.members| == 0 then s
    else
      var index :=
        if |a.members| == 1 then s.index[a.members[0] := Lookup(s.index, a.members[0]) + [a.name]]
        else s.index;
      Store(Put(s.table, a.name, a.members), index)
  }

  /** The parse loop over every entry, in order. */
  function Load(entries: seq<Alias>, s: Store): (r: Store)
    requires UniqueNames(s.table)
    ensures UniqueNames(r.table)
    ensures (forall i :: 0 <= i < |s.table| ==> |s.table[i].members| >= 1) ==>
              forall i :: 0 <= i < |r.table| ==> |r.table[i].members| >= 1
    decreases |entries|
  {
    if |entries| == 0 then s
    else
      var a := entries[0];
      var s' := Absorb(s, a);
      assert UniqueNames(s'.table) && ((forall i :: 0 <= i < |s.table| ==> |s.table[i].members| >= 1) ==>
              forall i :: 0 <= i < |s'.table| ==> |s'.table[i].members| >= 1) by {
        if |a.members| > 0 {
          PutNames(s.table, a.name, a.members);
          if forall i :: 0 <= i < |s.table| ==> |s.table[i].members| >= 1 {
            PutKeepsMembers(s.table, a.name, a.members);
          }
        }
      }
      Load(entries[1..], s')
  }

  /** The entries that carry at least one user. */
  function Kept(entries: seq<Alias>): (r: seq<Alias>)
    ensures forall i :: 0 <= i < |r| ==> |r[i].members| >= 1
  {
    if |entries| == 0 then []
    else (if |entries[0].members| == 0 then [] else [entries[0]]) + Kept(entries[1..])
  }

  /** No two user-carrying entries share a name, and none is already in the store. */
  predicate Fresh(entries: seq<Alias>, t: Table) {
    && (forall i :: 0 <= i < |entries| && |entries[i].members| >= 1 ==> entries[i].name !in Names(t))
    && (forall i, j :: 0 <= i < j < |entries| && |entries[i].members| >= 1 && |entries[j].members| >= 1
          ==> entries[i].name != entries[j].name)
  }

  /** Absorbing an entry with a new name appends it and keeps the index exact. */
  lemma AbsorbValid(s: Store, a: Alias)
    requires Valid(s) && |a.members| >= 1 && a.name !in Names(s.table)
    ensures Absorb(s, a).table == s.table + [a]
    ensures Valid(Absorb(s, a))
  {
    var r := Absorb(s, a);
    PutNew(s.table, a.name, a.members);
    PutNames(s.table, a.name, a.members);
    assert r.table == s.table + [a];
    forall i | 0 <= i < |r.table|
      ensures |r.table[i].members| >= 1
    {
      if i < |s.table| { assert r.table[i] == s.table[i]; }
    }
    forall u
      ensures Lookup(r.index, u) == PersonalNames(r.table, u)
    {
      PersonalNamesAppend(s.table, a, u);
    }
  }

  lemma NamesSnoc(t: Table, a: Alias)
    ensures Names(t + [a]) == Names(t) + [a.name]
  {
  }

  /** After absorbing the first entry, the rest are still fresh for the grown table. */
  lemma FreshTail(entries: seq<Alias>, t: Table, t': Table)
    requires |entries| > 0 && Fresh(entries, t)
    requires forall n :: n in Names(t') ==> n in Names(t) || (|entries[0].members| >= 1 && n == entries[0].name)
    ensures Fresh(entries[1..], t')
  {
    var tail := entries[1..];
    forall i | 0 <= i < |tail| && |tail[i].members| >= 1
      ensures tail[i].name !in Names(t')
    {
      assert tail[i] == entries[i + 1];
    }
    forall i, j | 0 <= i < j < |tail| && |tail[i].members| >= 1 && |tail[j].members| >= 1
      ensures tail[i].name != tail[j].name
    {
      assert tail[i] == entries[i + 1] && tail[j] == entries[j + 1];
    }
  }

  lemma KeptCons(entries: seq<Alias>)
    requires |entries| > 0
    ensures Kept(entries) == (if |entries[0].members| == 0 then [] else [entries[0]]) + Kept(entries[1..])
  {
  }

  lemma LoadCons(entries: seq<Alias>, s: Store)
    requires |entries| > 0 && UniqueNames(s.table) && UniqueNames(Absorb(s, entries[0]).table)
    ensures Load(entries, s) == Load(entries[1..], Absorb(s, entries[0]))
  {
  }

  lemma AppendAssoc(a: Table, b: Table, c: Table)
    ensures (a + b) + c == a + (b + c)
  {
  }

  /**
    Loading entries whose user-carrying names are all new and distinct appends
    exactly those entries to the table.
  */
  lemma {:induction false} LoadTable(entries: seq<Alias>, s: Store)
    requires Valid(s) && Fresh(entries, s.table)
    ensures Load(entries, s).table == s.table + Kept(entries)
    decreases |entries|
  {
    if |entries| == 0 {
      assert s.table + Kept(entries) == s.table;
    } else {
      var a := entries[0];
      var s' := Absorb(s, a);
      AbsorbStep(s, a);
      FreshTail(entries, s.table, s'.table);
      LoadTable(entries[1..], s');
      LoadCons(entries, s);
      KeptCons(entries);
      AppendAssoc(s.table, if |a.members| == 0 then [] else [a], Kept(entries[1..]));
    }
  }

  /** ... and keeps the personal-alias index exact. */
  lemma {:induction false} LoadValid(entries: seq<Alias>, s: Store)
    requires Valid(s) && Fresh(entries, s.table)
    ensures Valid(Load(entries, s))
    decreases |entries|
  {
    if |entries| > 0 {
      var s' := Absorb(s, entries[0]);
      AbsorbStep(s, entries[0]);
      FreshTail(entries, s.table, s'.table);
      LoadValid(entries[1..], s');
    }
  }

  /** One step of the load loop, with or without users. */
  lemma AbsorbStep(s: Store, a: Alias)
    requires Valid(s) && (|a.members| >= 1 ==> a.name !in Names(s.table))
    ensures Valid(Absorb(s, a))
    ensures Absorb(s, a).table == s.table + (if |a.members| == 0 then [] else [a])
    ensures forall n :: n in Names(Absorb(s, a).table) ==>
              n in Names(s.table) || (|a.members| >= 1 && n == a.name)
  {
    if |a.members| >= 1 {
      AbsorbValid(s, a);
      NamesSnoc(s.table, a);
    } else {
      assert s.table + [] == s.table;
    }
  }

  /** The store an `Aliases` object starts from. */
  const Empty := Store([], map[])

  lemma EmptyValid()
    ensures Valid(Empty)
  {
    forall u
      ensures Lookup(Empty.index, u) == PersonalNames(Empty.table, u)
    {
    }
  }

  /**
    A name given twice keeps only the later users, but a personal alias recorded by
    the earlier line stays in the index: the parsed store is then not `Valid`.
  */
  lemma DuplicateNameKeepsStaleIndex()
    ensures var r := Load([Alias("a", ["x"]), Alias("a", ["y", "z"])], Empty);
            && r.table == [Alias("a", ["y", "z"])]
            && Lookup(r.index, "x") == ["a"]
            && !Valid(r)
  {
    var s1 := Absorb(Empty, Alias("a", ["x"]));
    assert Lookup(Empty.index, "x") == [];
    assert Put([], "a", ["x"]) == [Alias("a", ["x"])];
    assert [] + ["a"] == ["a"];
    assert Lookup(s1.index, "x") == ["a"];
    assert s1.table == [Alias("a", ["x"])];
    var r := Load([Alias("a", ["x"]), Alias("a", ["y", "z"])], Empty);
    assert r == Absorb(s1, Alias("a", ["y", "z"]));
    assert r.table == [Alias("a", ["y", "z"])];
    assert PersonalNames(r.table, "x") == [];
  }

  /** The constructor: split into lines, clean, glue continuations, parse, load. */
  function Parse(text: string): (r: Result<Store, Error>)
    ensures r.Err? ==> r.error == InvalidLine
    ensures r.Ok? ==> UniqueNames(r.value.table)
    ensures r.Ok? ==> forall i :: 0 <= i < |r.value.table| ==> |r.value.table[i].members| >= 1
  {
    var lines := CleanLines(Split(text, IsNewline));
    match Logical(lines, [])
    case Err(e) => Err(e)
    case Ok(logical) =>
      match ParseLines(logical)
      case Err(e) => Err(e)
      case Ok(entries) => Ok(Load(entries, Empty))
  }

  /** When no name repeats among user-carrying entries, the parsed index is exact. */
  lemma ParseValid(text: string)
    requires Parse(text).Ok?
    requires var logical := Logical(CleanLines(Split(text, IsNewline)), []).value;
             Fresh(ParseLines(logical).value, [])
    ensures Valid(Parse(text).value)
  {
    var logical := Logical(CleanLines(Split(text, IsNewline)), []).value;
    EmptyValid();
    LoadValid(ParseLines(logical).value, Empty);
  }

  // ---------------------------------------------------------------------------
  // Encoding

  /** `${alias}: ${users.join(' ')}`. */
  function Line(a: Alias): string {
    a.name + ": " + Join(a.members, " ")
  }

  function Lines(t: Table): (r: seq<string>)
    ensures |r| == |t|
  {
    seq(|t|, i requires 0 <= i < |t| => Line(t[i]))
  }

  /** `encode()`: one line per alias in table order, and a final newline. */
  function Encode(t: Table): string {
    Join(Lines(t) + [""], "\n")
  }

  /** `toString()`. */
  function ToString(s: Store): string {
    Encode(s.table)
  }

  /** A word that the alias file can carry: non-empty, no whitespace, no colon. */
  predicate Word(w: string) {
    w != "" && Free(w, IsSpace) && Free(w, IsColon)
  }

  /** An alias that survives the file: a name that is a word not starting with `#`, and word users. */
  predicate Encodable(a: Alias) {
    && Word(a.name) && a.name[0] != '#'
    && |a.members| >= 1
    && forall i :: 0 <= i < |a.members| ==> Word(a.members[i])
  }

  /** One encoded line splits at its only colon into the name and the rest. */
  lemma LineSplits(a: Alias)
    requires Encodable(a)
    ensures CountSep(Line(a), IsColon) == 1
    ensures Split(Line(a), IsColon) == [a.name, " " + Join(a.members, " ")]
  {
    var j := Join(a.members, " ");
    var rest := " " + j;
    assert Line(a) == Join([a.name, rest], ":");
    forall i | 0 <= i < |a.members| ensures Free(a.members[i], IsColon) {
      assert Word(a.members[i]);
    }
    FreeJoin(a.members, " ", IsColon);
    FreeConcat(" ", j, IsColon);
    SplitJoin([a.name, rest], ':', IsColon);
    SplitLength(Line(a), IsColon);
  }

  /** One encoded line reads back as its alias. */
  lemma LineParses(a: Alias)
    requires Encodable(a)
    ensures CountSep(Line(a), IsColon) == 1
    ensures ParseLine(Line(a)) == Ok(a)
  {
    LineSplits(a);
    TrimFree(a.name);
    forall i | 0 <= i < |a.members| ensures a.members[i] != "" && Free(a.members[i], IsSpace) {
      assert Word(a.members[i]);
    }
    TokensOfJoin(a.members);
  }

  /** An encoded line survives cleaning and does not look like a continuation. */
  lemma LineShape(a: Alias)
    requires Encodable(a)
    ensures Clean(Line(a)) && !IsContinuation(Line(a))
    ensures Free(Line(a), IsNewline)
  {
    var l := Line(a);
    JoinEndsWithLast(a.members, " ");
    var last := a.members[|a.members| - 1];
    assert Word(last);
    assert l[|l| - 1] == last[|last| - 1];
    assert l[0] == a.name[0];
    assert TrimStart(l) == l;
    assert forall k :: 0 <= k < |a.members| ==> Free(a.members[k], IsNewline) by {
      forall k | 0 <= k < |a.members| ensures Free(a.members[k], IsNewline) {
        assert Word(a.members[k]);
      }
    }
    FreeJoin(a.members, " ", IsNewline);
    FreeConcat(a.name, ": ", IsNewline);
    FreeConcat(a.name + ": ", Join(a.members, " "), IsNewline);
  }

  /** Splitting the encoded file at newlines gives the lines and one empty tail. */
  lemma SplitEncode(t: Table)
    requires forall i :: 0 <= i < |t| ==> Encodable(t[i])
    ensures Split(Encode(t), IsNewline) == Lines(t) + [""]
  {
    var ls := Lines(t);
    var parts := ls + [""];
    forall i | 0 <= i < |parts|
      ensures Free(parts[i], IsNewline)
    {
      if i < |ls| {
        LineShape(t[i]);
      }
    }
    SplitJoin(parts, '\n', IsNewline);
  }

  lemma {:induction false} CleanLinesAppend(a: seq<string>, b: seq<string>)
    ensures CleanLines(a + b) == CleanLines(a) + CleanLines(b)
    decreases |a|
  {
    if |a| > 0 {
      assert (a + b)[0] == a[0] && (a + b)[1..] == a[1..] + b;
      CleanLinesAppend(a[1..], b);
    } else {
      assert a + b == b;
    }
  }

  /** Cleaning the split file leaves exactly the encoded lines. */
  lemma CleanEncode(t: Table)
    requires forall i :: 0 <= i < |t| ==> Encodable(t[i])
    ensures CleanLines(Lines(t) + [""]) == Lines(t)
    ensures forall i :: 0 <= i < |Lines(t)| ==> !IsContinuation(Lines(t)[i])
  {
    var ls := Lines(t);
    forall i | 0 <= i < |ls|
      ensures Clean(ls[i]) && !IsContinuation(ls[i])
    {
      LineShape(t[i]);
    }
    CleanLinesAppend(ls, [""]);
    CleanLinesDropsBlank([], "");
    CleanLinesKeeps(ls);
    assert CleanLines([""]) == [];
  }

  lemma ParseLinesOfTable(t: Table)
    requires forall i :: 0 <= i < |t| ==> Encodable(t[i])
    ensures ParseLines(Lines(t)) == Ok(t)
  {
    forall i | 0 <= i < |t|
      ensures ParseLine(Lines(t)[i]) == Ok(t[i])
    {
      LineParses(t[i]);
    }
    var r := ParseLines(Lines(t));
    assert r.Ok?;
    assert |r.value| == |t|;
    assert forall i :: 0 <= i < |t| ==> r.value[i] == t[i];
    assert r.value == t;
  }

  /** A table with unique names whose aliases all have users is fresh for the empty store. */
  lemma UniqueFresh(t: Table)
    requires UniqueNames(t) && forall i :: 0 <= i < |t| ==> |t[i].members| >= 1
    ensures Fresh(t, [])
  {
  }

  lemma KeptAll(entries: seq<Alias>)
    requires forall i :: 0 <= i < |entries| ==> |entries[i].members| >= 1
    ensures Kept(entries) == entries
  {
  }

  /**
    The file written by `encode` reads back as the same table, with the personal
    alias index rebuilt exactly.
  */
  lemma EncodeRoundTrip(t: Table)
    requires UniqueNames(t)
    requires forall i :: 0 <= i < |t| ==> Encodable(t[i])
    ensures Parse(Encode(t)).Ok?
    ensures Parse(Encode(t)).value.table == t
    ensures Valid(Parse(Encode(t)).value)
  {
    ParseEncode(t);
    assert forall i :: 0 <= i < |t| ==> |t[i].members| >= 1 by {
      forall i | 0 <= i < |t| ensures |t[i].members| >= 1 { assert Encodable(t[i]); }
    }
    UniqueFresh(t);
    EmptyValid();
    LoadTable(t, Empty);
    LoadValid(t, Empty);
    KeptAll(t);
  }

  /** The encoded file passes every stage of the parser and reaches the load loop intact. */
  lemma ParseEncode(t: Table)
    requires forall i :: 0 <= i < |t| ==> Encodable(t[i])
    ensures Parse(Encode(t)) == Ok(Load(t, Empty))
  {
    var ls := Lines(t);
    assert CleanLines(Split(Encode(t), IsNewline)) == ls by {
      SplitEncode(t);
      CleanEncode(t);
    }
    assert Logical(ls, []) == Ok(ls) by {
      CleanEncode(t);
      assert NoContinuation(ls);
      assert [] + ls == ls;
    }
    ParseLinesOfTable(t);
  }

  /**
    `toString` of a valid store whose aliases are all encodable reads back as the same
    table and answers `getPersonalAliases` the same for every user.
  */
  lemma ToStringRoundTrip(s: Store, user: string)
    requires Valid(s)
    requires forall i :: 0 <= i < |s.table| ==> Encodable(s.table[i])
    ensures Parse(ToString(s)).Ok?
    ensures Parse(ToString(s)).value.table == s.table
    ensures GetPersonalAliases(Parse(ToString(s)).value, user) == GetPersonalAliases(s, user)
  {
    EncodeRoundTrip(s.table);
  }
}
