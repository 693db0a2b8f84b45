/**
  Group membership from the output of `id <user>`: the regular-expression matching
  that `userInGroup` performs, in the current form (every `gid(name)` entry of the
  `groups=` field) and in the older form (only the first two entries, and nothing when
  there are fewer than two). The run of `id` is an input: `None` when it failed.

  A pattern is matched at the start of a string, and a search for its leftmost match
  tries each suffix in turn; positions are lengths of what a match consumed.
*/
module IdGroups {
  import opened Wrappers
  import opened Text
  import opened Decimal

  // ---------------------------------------------------------------------------
  // The pieces of the patterns

  /** `.` in a JavaScript regular expression matches every character except these. */
  predicate IsLineTerminator(c: char) {
    c == '\n' || c == '\r' || c == '\U{2028}' || c == '\U{2029}'
  }

  /** `[0-9]+` is greedy: the length of the run of digits that starts `t`. */
  function DigitRun(t: string): (n: nat)
    ensures n <= |t|
  {
    if |t| > 0 && IsDigit(t[0]) then 1 + DigitRun(t[1..]) else 0
  }

  /**
    `.*?\)` with nothing after it to force backtracking: the position of the first `)`
    of the line.
  */
  function CloseAt(t: string): (k: Option<nat>)
    ensures k.Some? ==> k.value < |t| && t[k.value] == ')'
  {
    if |t| == 0 || IsLineTerminator(t[0]) then None
    else if t[0] == ')' then Some(0)
    else match CloseAt(t[1..])
      case None => None
      case Some(k) => Some(k + 1)
  }

  /** What `[0-9]+\((.*?)\)` matched: the captured name and the length of the match. */
  datatype Entry = Entry(name: string, length: nat)

  /** `[0-9]+\((.*?)\)` at the start of `t`. */
  function EntryAt(t: string): (r: Option<Entry>)
    ensures r.Some? ==> 0 < r.value.length <= |t| && t[r.value.length - 1] == ')'
    ensures r.Some? ==> |r.value.name| < r.value.length
  {
    var d := DigitRun(t);
    if d == 0 || d == |t| || t[d] != '(' then None
    else EntryAfter(t, d)
  }

  /** `\((.*?)\)` after the `d` digits that start `t`. */
  function EntryAfter(t: string, d: nat): (r: Option<Entry>)
    requires d < |t|
    ensures r.Some? ==> d + 2 <= r.value.length <= |t| && t[r.value.length - 1] == ')'
    ensures r.Some? ==> |r.value.name| < r.value.length
  {
    match CloseAt(t[d + 1..])
    case None => None
    case Some(k) => Some(Entry(t[d + 1 .. d + 1 + k], d + k + 2))
  }

  /** The literal that opens the field. */
  const Key := "groups="

  predicate KeyAt(t: string) {
    |Key| <= |t| && t[..|Key|] == Key
  }

  // ---------------------------------------------------------------------------
  // The current parser

  /** `(?:,[0-9]+\(.*?\))*`, greedy, at the start of `t`: the length it takes. */
  function MoreEntries(t: string): (n: nat)
    ensures n <= |t|
    decreases |t|
  {
    if |t| > 0 && t[0] == ',' then
      match EntryAt(t[1..])
      case Some(e) => 1 + e.length + MoreEntries(t[1 + e.length..])
      case None => 0
    else 0
  }

  /** The leftmost match of `/groups=([0-9]+\(.*?\)(?:,[0-9]+\(.*?\))*)/` in `t`: its capture. */
  function GroupsField(t: string): (r: Option<string>)
    decreases |t|
  {
    if |t| == 0 then None
    else if FieldStart(t) then Some(Capture(t[|Key|..]))
    else GroupsField(t[1..])
  }

  /** The pattern matches at the start of `t`: the key, then an entry. */
  predicate FieldStart(t: string) {
    KeyAt(t) && EntryAt(t[|Key|..]).Some?
  }

  /** The capture group: one entry, then as many `,entry` pieces as follow. */
  function Capture(u: string): (c: string)
    requires EntryAt(u).Some?
    ensures EntryAt(u).value.length <= |c| <= |u|
  {
    var first := EntryAt(u).value.length;
    u[.. first + MoreEntries(u[first..])]
  }

  /** `groupString.match(/([0-9]+)\((.*?)\)/)`, the leftmost match, and its name. */
  function FirstEntry(t: string): Option<string>
    decreases |t|
  {
    if |t| == 0 then None
    else match EntryAt(t)
      case Some(e) => Some(e.name)
      case None => FirstEntry(t[1..])
  }

  /** The loop over the comma-separated pieces, skipping those without a match. */
  function NamesOf(pieces: seq<string>): (names: seq<string>)
    ensures |names| <= |pieces|
  {
    if |pieces| == 0 then []
    else
      var head := match FirstEntry(pieces[0]) case Some(n) => [n] case None => [];
      head + NamesOf(pieces[1..])
  }

  /** The group names `userInGroup` reads from the trimmed output of `id`. */
  function GroupNames(stdout: string): seq<string> {
    match GroupsField(Trim(stdout))
    case None => []
    case Some(field) => NamesOf(Split(field, IsComma))
  }

  /** `userInGroup(username, group)`, with the outcome of running `id` as input. */
  function UserInGroup(idOutput: Option<string>, group: string): (r: bool)
    ensures idOutput.None? ==> !r
  {
    match idOutput
    case None => false
    case Some(stdout) => group in GroupNames(stdout)
  }

  /** The group whose members are administrators (`ADMIN_GROUP`, when the environment leaves it unset). */
  const DefaultAdminGroup := "sudo"

  /** `process.env.ADMIN_GROUP || 'sudo'`: an unset or empty variable gives the default. */
  function AdminGroup(env: string): (g: string)
    ensures g != ""
    ensures env != "" ==> g == env
    ensures env == "" ==> g == "sudo"
  {
    if env == "" then DefaultAdminGroup else env
  }

  /** `userIsAdmin(username)`. */
  function UserIsAdmin(idOutput: Option<string>, env: string): bool {
    UserInGroup(idOutput, AdminGroup(env))
  }

  /** The current pattern matches only where the key occurs. */
  lemma {:induction false} GroupsFieldNeedsKey(t: string)
    ensures GroupsField(t).Some? ==> exists j :: 0 <= j < |t| && KeyAt(t[j..])
    decreases |t|
  {
    if |t| > 0 {
      if FieldStart(t) {
        assert t[0..] == t;
      } else {
        GroupsFieldNeedsKey(t[1..]);
        if GroupsField(t[1..]).Some? {
          var j :| 0 <= j < |t| - 1 && KeyAt(t[1..][j..]);
          assert t[1..][j..] == t[j + 1..];
        }
      }
    }
  }

  /** Output without the `groups=` key has no groups, so nobody is in any group. */
  lemma NoKeyNoGroups(stdout: string, group: string)
    requires forall j :: 0 <= j < |Trim(stdout)| ==> !KeyAt(Trim(stdout)[j..])
    ensures GroupNames(stdout) == []
    ensures !UserInGroup(Some(stdout), group)
  {
    GroupsFieldNeedsKey(Trim(stdout));
  }

  // ---------------------------------------------------------------------------
  // The older parser

  /**
    The first `(.*?)` of `/groups=[0-9]+\((.*?)\)(?:,[0-9]+\((.*?)\))/`, grown from the
    start of `t` (the text after the first `(`) to length `k`. The mandatory second
    entry makes it grow past a `)` that is not followed by `,` and a complete entry; it
    never grows past a line terminator.
  */
  function LazyPair(t: string, k: nat): (r: Option<(string, string)>)
    requires k <= |t|
    decreases |t| - k
  {
    if k == |t| || IsLineTerminator(t[k]) then None
    else if t[k] == ')' && k + 1 < |t| && t[k + 1] == ',' && EntryAt(t[k + 2..]).Some? then
      Some((t[..k], EntryAt(t[k + 2..]).value.name))
    else LazyPair(t, k + 1)
  }

  /** The older pattern at the start of `t`, with both captures. */
  function LegacyAt(t: string): (r: Option<(string, string)>) {
    if !KeyAt(t) then None
    else
      var u := t[|Key|..];
      var d := DigitRun(u);
      if d == 0 || d == |u| || u[d] != '(' then None
      else LazyPair(u[d + 1..], 0)
  }

  /** The leftmost match of the older pattern in `t`. */
  function LegacySearch(t: string): (r: Option<(string, string)>)
    decreases |t|
  {
    if |t| == 0 then None
    else match LegacyAt(t)
      case Some(pair) => Some(pair)
      case None => LegacySearch(t[1..])
  }

  /** `stdout.match(...)?.slice(1) ?? []`: both names of the match, or none. */
  function LegacyGroupNames(stdout: string): (names: seq<string>)
    ensures |names| == 0 || |names| == 2
  {
    match LegacySearch(stdout)
    case None => []
    case Some((first, second)) => [first, second]
  }

  /** The older `userInGroup`. */
  function LegacyUserInGroup(idOutput: Option<string>, group: string): (r: bool)
    ensures idOutput.None? ==> !r
  {
    match idOutput
    case None => false
    case Some(stdout) => group in LegacyGroupNames(stdout)
  }

  /** The older `userIsAdmin`. */
  function LegacyUserIsAdmin(idOutput: Option<string>, env: string): bool {
    LegacyUserInGroup(idOutput, AdminGroup(env))
  }

  /** Without a comma the mandatory second entry is missing: the lazy group finds no end. */
  lemma {:induction false} LazyPairNeedsComma(t: string, k: nat)
    requires k <= |t| && Free(t, IsComma)
    ensures LazyPair(t, k).None?
    decreases |t| - k
  {
    if k < |t| && !IsLineTerminator(t[k]) {
      LazyPairNeedsComma(t, k + 1);
    }
  }

  lemma LegacyAtNeedsComma(t: string)
    requires Free(t, IsComma)
    ensures LegacyAt(t).None?
  {
    if KeyAt(t) {
      var u := t[|Key|..];
      var d := DigitRun(u);
      if d != 0 && d < |u| && u[d] == '(' {
        var w := u[d + 1..];
        assert forall i :: 0 <= i < |w| ==> w[i] == t[|Key| + d + 1 + i];
        LazyPairNeedsComma(w, 0);
      }
    }
  }

  /** The older pattern finds nothing in a text without a comma. */
  lemma {:induction false} LegacySearchNeedsComma(t: string)
    requires Free(t, IsComma)
    ensures LegacySearch(t).None?
    decreases |t|
  {
    if |t| > 0 {
      LegacyAtNeedsComma(t);
      assert forall i :: 0 <= i < |t| - 1 ==> t[1..][i] == t[i + 1];
      LegacySearchNeedsComma(t[1..]);
    }
  }

  // ---------------------------------------------------------------------------
  // Well-formed output of `id`

  /** One group as `id` prints it: its number, in decimal digits, and its name. */
  datatype Group = Group(gid: string, name: string)

  /** A name the entry pattern reads back whole: no comma, no `)`, no line break. */
  predicate PlainName(n: string) {
    forall i :: 0 <= i < |n| ==> n[i] != ',' && n[i] != ')' && !IsLineTerminator(n[i])
  }

  /** A group the entry pattern reads back: a non-empty run of digits and a plain name. */
  predicate PlainGroup(g: Group) {
    |g.gid| >= 1 && Digits(g.gid) && PlainName(g.name)
  }

  predicate PlainGroups(gs: seq<Group>) {
    forall i :: 0 <= i < |gs| ==> PlainGroup(gs[i])
  }

  /** `gid(name)`. */
  function EntryText(g: Group): string {
    g.gid + "(" + g.name + ")"
  }

  /** `,gid(name)` for each group. */
  function Tail(gs: seq<Group>): string {
    if |gs| == 0 then "" else "," + EntryText(gs[0]) + Tail(gs[1..])
  }

  /** The field: the entries joined with commas. */
  function Render(gs: seq<Group>): string {
    if |gs| == 0 then "" else EntryText(gs[0]) + Tail(gs[1..])
  }

  function Texts(gs: seq<Group>): (ts: seq<string>)
    ensures |ts| == |gs|
    ensures forall i :: 0 <= i < |gs| ==> ts[i] == EntryText(gs[i])
  {
    if |gs| == 0 then [] else [EntryText(gs[0])] + Texts(gs[1..])
  }

  function Names(gs: seq<Group>): (ns: seq<string>)
    ensures |ns| == |gs|
    ensures forall i :: 0 <= i < |gs| ==> ns[i] == gs[i].name
  {
    if |gs| == 0 then [] else [gs[0].name] + Names(gs[1..])
  }

  /**
    The standard output of `id`: whatever comes first on its line, then the groups
    field, then the whitespace that ends the output (the closing newline).
  */
  function IdOutput(prefix: string, gs: seq<Group>, trailer: string): string {
    prefix + Key + Render(gs) + trailer
  }

  /** The prefix holds no `groups=` of its own, not even one running into the real key. */
  predicate KeyFree(prefix: string) {
    forall i :: 0 <= i < |prefix| ==> !KeyAt((prefix + Key)[i..])
  }

  // ---------------------------------------------------------------------------
  // Matching rendered entries

  /** A run of digits followed by a non-digit is measured exactly. */
  lemma {:induction false} DigitRunOf(d: string, rest: string)
    requires Digits(d) && |rest| >= 1 && !IsDigit(rest[0])
    ensures DigitRun(d + rest) == |d|
    decreases |d|
  {
    if |d| == 0 {
      assert d + rest == rest;
    } else {
      assert (d + rest)[1..] == d[1..] + rest;
      DigitRunOf(d[1..], rest);
    }
  }

  /** A plain name followed by `)` is closed right after the name. */
  lemma {:induction false} CloseOf(name: string, rest: string)
    requires PlainName(name) && |rest| >= 1 && rest[0] == ')'
    ensures CloseAt(name + rest) == Some(|name|)
    decreases |name|
  {
    if |name| == 0 {
      assert name + rest == rest;
    } else {
      assert (name + rest)[0] == name[0];
      assert (name + rest)[1..] == name[1..] + rest;
      CloseOf(name[1..], rest);
    }
  }

  /** `EntryAt` on a text whose digit run and closing parenthesis are known. */
  lemma EntryAtFrom(t: string, d: nat, k: nat)
    requires 0 < d < |t| && DigitRun(t) == d && t[d] == '('
    requires CloseAt(t[d + 1..]) == Some(k)
    ensures EntryAt(t) == Some(Entry(t[d + 1 .. d + 1 + k], d + k + 2))
  {
    assert EntryAt(t) == EntryAfter(t, d);
  }

  /** `gid(name)` and anything after it: the entry is matched whole. */
  lemma EntryOfParts(gid: string, w: string, name: string, b: string)
    requires |gid| >= 1 && Digits(gid) && PlainName(name) && w == name + (")" + b)
    ensures EntryAt(gid + ("(" + w)) == Some(Entry(name, |gid| + |name| + 2))
  {
    var t := gid + ("(" + w);
    var d := |gid|;
    DigitRunOf(gid, "(" + w);
    assert t[d] == '(';
    assert t[d + 1..] == w;
    CloseOf(name, ")" + b);
    EntryAtFrom(t, d, |name|);
    assert t[d + 1 .. d + 1 + |name|] == w[..|name|] == name;
  }

  /** A rendered entry is matched whole, capturing its name, whatever follows it. */
  lemma EntryOf(g: Group, b: string)
    requires PlainGroup(g)
    ensures EntryAt(EntryText(g) + b) == Some(Entry(g.name, |EntryText(g)|))
  {
    var w := g.name + (")" + b);
    assert EntryText(g) + b == g.gid + ("(" + w);
    EntryOfParts(g.gid, w, g.name, b);
  }

  /** A rendered run of `,entry` pieces is taken whole by the greedy repetition. */
  lemma {:induction false} MoreOf(gs: seq<Group>)
    requires PlainGroups(gs)
    ensures MoreEntries(Tail(gs)) == |Tail(gs)|
    decreases |gs|
  {
    if |gs| > 0 {
      var t := Tail(gs);
      var e := EntryText(gs[0]);
      var tail := Tail(gs[1..]);
      assert t == "," + (e + tail);
      assert t[1..] == e + tail;
      EntryOf(gs[0], tail);
      assert t[1 + |e|..] == tail;
      assert PlainGroups(gs[1..]);
      MoreOf(gs[1..]);
    }
  }

  /** The key followed by a rendered list: the current pattern captures the whole list. */
  lemma FieldAtKey(gs: seq<Group>)
    requires |gs| >= 1 && PlainGroups(gs)
    ensures KeyAt(Key + Render(gs))
    ensures GroupsField(Key + Render(gs)) == Some(Render(gs))
  {
    RenderTaken(gs);
    FieldOfKey(Render(gs));
  }

  /** The first entry of a rendered list, then the greedy repetition, take all of it. */
  lemma RenderTaken(gs: seq<Group>)
    requires |gs| >= 1 && PlainGroups(gs)
    ensures EntryAt(Render(gs)).Some?
    ensures var n := EntryAt(Render(gs)).value.length;
            n + MoreEntries(Render(gs)[n..]) == |Render(gs)|
  {
    var u := Render(gs);
    var e := EntryText(gs[0]);
    var tail := Tail(gs[1..]);
    EntryOf(gs[0], tail);
    assert u[|e|..] == tail;
    assert PlainGroups(gs[1..]);
    MoreOf(gs[1..]);
  }

  /** A list the pattern takes whole, right after the key, is the captured field. */
  lemma FieldOfKey(u: string)
    requires EntryAt(u).Some?
    requires var n := EntryAt(u).value.length; n + MoreEntries(u[n..]) == |u|
    ensures KeyAt(Key + u)
    ensures GroupsField(Key + u) == Some(u)
  {
    KeyThen(u);
    CaptureWhole(u);
  }

  lemma KeyThen(u: string)
    ensures KeyAt(Key + u) && (Key + u)[|Key|..] == u
  {
    assert (Key + u)[..|Key|] == Key;
  }

  lemma CaptureWhole(u: string)
    requires EntryAt(u).Some?
    requires var n := EntryAt(u).value.length; n + MoreEntries(u[n..]) == |u|
    ensures Capture(u) == u
  {
    assert u[..|u|] == u;
  }

  /** Where a key follows, a key-free prefix starts no key of its own. */
  lemma NoKeyInPrefix(prefix: string, rest: string)
    requires |prefix| >= 1 && KeyFree(prefix) && KeyAt(rest)
    ensures !KeyAt(prefix + rest)
  {
    var t := prefix + rest;
    assert (prefix + Key)[0..] == prefix + Key;
    assert !KeyAt(prefix + Key);
    if |Key| <= |t| {
      forall i | 0 <= i < |Key|
        ensures t[i] == (prefix + Key)[i]
      {
        if i >= |prefix| {
          assert t[i] == rest[i - |prefix|];
          assert rest[..|Key|][i - |prefix|] == Key[i - |prefix|];
        }
      }
      assert t[..|Key|] == (prefix + Key)[..|Key|];
    }
  }

  lemma KeyFreeTail(prefix: string)
    requires |prefix| >= 1 && KeyFree(prefix)
    ensures KeyFree(prefix[1..])
  {
    forall i | 0 <= i < |prefix| - 1
      ensures !KeyAt((prefix[1..] + Key)[i..])
    {
      assert (prefix[1..] + Key)[i..] == (prefix + Key)[i + 1..];
    }
  }

  /** Both searches run over a key-free prefix to the key after it. */
  lemma {:induction false} SkipPrefix(prefix: string, rest: string)
    requires KeyFree(prefix) && KeyAt(rest)
    ensures GroupsField(prefix + rest) == GroupsField(rest)
    ensures LegacySearch(prefix + rest) == LegacySearch(rest)
    decreases |prefix|
  {
    if |prefix| == 0 {
      assert prefix + rest == rest;
    } else {
      NoKeyInPrefix(prefix, rest);
      assert (prefix + rest)[1..] == prefix[1..] + rest;
      KeyFreeTail(prefix);
      SkipPrefix(prefix[1..], rest);
    }
  }

  lemma EntryTextPlain(g: Group)
    requires PlainGroup(g)
    ensures Free(EntryText(g), IsComma)
    ensures |EntryText(g)| >= 1 && !IsSpace(EntryText(g)[|EntryText(g)| - 1])
  {
    assert forall k :: 0 <= k < |g.gid| ==> IsDigit(g.gid[k]);
  }

  lemma {:induction false} RenderIsJoin(gs: seq<Group>)
    ensures Render(gs) == Join(Texts(gs), ",")
    decreases |gs|
  {
    if |gs| > 1 {
      RenderIsJoin(gs[1..]);
      assert Texts(gs)[1..] == Texts(gs[1..]);
      assert Render(gs[1..]) == EntryText(gs[1]) + Tail(gs[2..]);
      assert Tail(gs[1..]) == "," + Render(gs[1..]);
    } else if |gs| == 1 {
      assert Tail(gs[1..]) == "";
    }
  }

  /** Every rendered entry is read back as its name. */
  lemma {:induction false} NamesOfTexts(gs: seq<Group>)
    requires PlainGroups(gs)
    ensures NamesOf(Texts(gs)) == Names(gs)
    decreases |gs|
  {
    if |gs| > 0 {
      var t := EntryText(gs[0]);
      EntryOf(gs[0], "");
      assert t + "" == t;
      assert FirstEntry(t) == Some(gs[0].name);
      assert Texts(gs)[1..] == Texts(gs[1..]);
      NamesOfTexts(gs[1..]);
    }
  }

  lemma {:induction false} RenderEndsWithParen(gs: seq<Group>)
    requires |gs| >= 1
    ensures |Render(gs)| >= 1 && Render(gs)[|Render(gs)| - 1] == ')'
    decreases |gs|
  {
    if |gs| > 1 {
      RenderEndsWithParen(gs[1..]);
      assert Tail(gs[1..]) == "," + Render(gs[1..]);
    } else {
      assert Tail(gs[1..]) == "";
    }
  }

  /**
    The trim takes off the whitespace after a well-formed line and leaves the line
    alone, and the search finds its field.
  */
  lemma FieldOfOutput(prefix: string, gs: seq<Group>, trailer: string)
    requires KeyFree(prefix) && (prefix == "" || !IsSpace(prefix[0]))
    requires |gs| >= 1 && PlainGroups(gs) && AllSpace(trailer)
    ensures GroupsField(Trim(IdOutput(prefix, gs, trailer))) == Some(Render(gs))
  {
    var line := prefix + Key + Render(gs);
    var rest := Key + Render(gs);
    assert line == prefix + rest;
    RenderEndsWithParen(gs);
    assert line[0] == (if prefix == "" then Key[0] else prefix[0]);
    assert line[|line| - 1] == Render(gs)[|Render(gs)| - 1];
    assert Trimmed(line);
    TrimTrailing(line, trailer);
    FieldAtKey(gs);
    SkipPrefix(prefix, rest);
  }

  /** Splitting a rendered field at its commas and matching each piece gives the names. */
  lemma NamesOfRender(gs: seq<Group>)
    requires |gs| >= 1 && PlainGroups(gs)
    ensures NamesOf(Split(Render(gs), IsComma)) == Names(gs)
  {
    RenderIsJoin(gs);
    forall i | 0 <= i < |gs| ensures Free(Texts(gs)[i], IsComma) {
      EntryTextPlain(gs[i]);
    }
    SplitJoin(Texts(gs), ',', IsComma);
    NamesOfTexts(gs);
  }

  /**
    The current parser reads back every group of well-formed `id` output, in order,
    whatever whitespace ends it.
  */
  lemma GroupNamesRoundTrip(prefix: string, gs: seq<Group>, trailer: string)
    requires KeyFree(prefix) && (prefix == "" || !IsSpace(prefix[0]))
    requires |gs| >= 1 && PlainGroups(gs) && AllSpace(trailer)
    ensures GroupNames(IdOutput(prefix, gs, trailer)) == Names(gs)
  {
    FieldOfOutput(prefix, gs, trailer);
    NamesOfRender(gs);
  }

  // ---------------------------------------------------------------------------
  // The older parser on well-formed output

  /** The lazy group runs over a plain name. */
  lemma {:induction false} LazyOverName(name: string, after: string, k: nat)
    requires PlainName(name) && k <= |name|
    ensures LazyPair(name + after, k) == LazyPair(name + after, |name|)
    decreases |name| - k
  {
    if k < |name| {
      assert (name + after)[k] == name[k];
      LazyOverName(name, after, k + 1);
    }
  }

  /** A plain name, then `)`, a comma and a complete entry: both captures close there. */
  lemma LazyPairOf(name: string, rest: string, e: Entry)
    requires PlainName(name) && EntryAt(rest) == Some(e)
    ensures LazyPair(name + (")" + ("," + rest)), 0) == Some((name, e.name))
  {
    var after := ")" + ("," + rest);
    var w := name + after;
    LazyOverName(name, after, 0);
    assert w[|name|] == ')' && w[|name| + 1] == ',';
    assert w[|name| + 2..] == rest;
    assert w[..|name|] == name;
  }

  /** The older pattern after the key and the digits of the first entry. */
  lemma LegacyAtFrom(gid: string, w: string)
    requires |gid| >= 1 && Digits(gid)
    ensures LegacyAt(Key + (gid + ("(" + w))) == LazyPair(w, 0)
  {
    var u := gid + ("(" + w);
    var t := Key + u;
    assert t[..|Key|] == Key;
    assert t[|Key|..] == u;
    DigitRunOf(gid, "(" + w);
    assert u[|gid|] == '(';
    assert u[|gid| + 1..] == w;
  }

  /** A rendered list of two or more entries: the first, a comma, the second and the rest. */
  lemma RenderTwo(gs: seq<Group>)
    requires |gs| >= 2
    ensures Render(gs) == EntryText(gs[0]) + ("," + (EntryText(gs[1]) + Tail(gs[2..])))
  {
    assert gs[1..][1..] == gs[2..];
  }

  lemma RegroupTwo<T>(k: seq<T>, a: seq<T>, b: seq<T>, c: seq<T>, d: seq<T>, e: seq<T>,
                      f: seq<T>, t: seq<T>, x: seq<T>)
    ensures k + (a + b + c + d + (e + (f + t))) + x == k + (a + (b + (c + (d + (e + (f + (t + x)))))))
  {
  }

  /**
    The key followed by two or more rendered entries, then anything: the older pattern
    captures the first two names.
  */
  lemma LegacyAtKey(gs: seq<Group>, after: string)
    requires |gs| >= 2 && PlainGroups(gs)
    ensures LegacyAt(Key + Render(gs) + after) == Some((gs[0].name, gs[1].name))
  {
    var g := gs[0];
    var rest := EntryText(gs[1]) + (Tail(gs[2..]) + after);
    var w := g.name + (")" + ("," + rest));
    RenderTwo(gs);
    RegroupTwo(Key, g.gid, "(", g.name, ")", ",", EntryText(gs[1]), Tail(gs[2..]), after);
    LegacyAtFrom(g.gid, w);
    EntryOf(gs[1], Tail(gs[2..]) + after);
    LazyPairOf(g.name, rest, Entry(gs[1].name, |EntryText(gs[1])|));
  }

  /**
    The older parser reads the first two groups of well-formed `id` output with at
    least two groups, whatever follows the groups field.
  */
  lemma LegacyGroupNamesRoundTrip(prefix: string, gs: seq<Group>, trailer: string)
    requires KeyFree(prefix)
    requires |gs| >= 2 && PlainGroups(gs)
    ensures LegacyGroupNames(IdOutput(prefix, gs, trailer)) == [gs[0].name, gs[1].name]
  {
    var rest := Key + Render(gs) + trailer;
    assert IdOutput(prefix, gs, trailer) == prefix + rest;
    assert rest[..|Key|] == Key;
    SkipPrefix(prefix, rest);
    LegacyAtKey(gs, trailer);
  }

  /** A field of at most one entry holds no comma. */
  lemma ShortFieldCommaFree(gs: seq<Group>)
    requires |gs| <= 1 && PlainGroups(gs)
    ensures Free(Key + Render(gs), IsComma)
  {
    assert Free(Key, IsComma);
    if |gs| == 1 {
      EntryTextPlain(gs[0]);
      assert Tail(gs[1..]) == "";
      assert Render(gs) == EntryText(gs[0]);
    }
    FreeConcat(Key, Render(gs), IsComma);
  }

  /**
    The older pattern insists on a second entry: on well-formed output with fewer than
    two groups it finds none, and nobody is in any group.
  */
  lemma LegacyNeedsTwo(prefix: string, gs: seq<Group>, trailer: string, group: string)
    requires KeyFree(prefix)
    requires |gs| <= 1 && PlainGroups(gs) && AllSpace(trailer)
    ensures LegacyGroupNames(IdOutput(prefix, gs, trailer)) == []
    ensures !LegacyUserInGroup(Some(IdOutput(prefix, gs, trailer)), group)
  {
    var rest := Key + Render(gs) + trailer;
    assert IdOutput(prefix, gs, trailer) == prefix + rest;
    assert rest[..|Key|] == Key;
    SkipPrefix(prefix, rest);
    ShortFieldCommaFree(gs);
    forall i | 0 <= i < |trailer| ensures !IsComma(trailer[i]) {
      assert IsSpace(trailer[i]);
    }
    FreeConcat(Key + Render(gs), trailer, IsComma);
    LegacySearchNeedsComma(rest);
  }

  /**
    On a well-formed line with at least two groups, the older parser reports exactly
    the first two groups the current one reports.
  */
  lemma LegacyIsFirstTwo(prefix: string, gs: seq<Group>, trailer: string)
    requires KeyFree(prefix) && (prefix == "" || !IsSpace(prefix[0]))
    requires |gs| >= 2 && PlainGroups(gs) && AllSpace(trailer)
    ensures |GroupNames(IdOutput(prefix, gs, trailer))| >= 2
    ensures LegacyGroupNames(IdOutput(prefix, gs, trailer)) == GroupNames(IdOutput(prefix, gs, trailer))[..2]
  {
    GroupNamesRoundTrip(prefix, gs, trailer);
    LegacyGroupNamesRoundTrip(prefix, gs, trailer);
    FirstTwoNames(gs);
  }

  lemma FirstTwoNames(gs: seq<Group>)
    requires |gs| >= 2
    ensures Names(gs)[..2] == [gs[0].name, gs[1].name]
  {
    var ns := Names(gs);
    assert ns[..2] == [ns[0], ns[1]];
  }

  /** The current parser answers membership for every listed group, and only for those. */
  lemma UserInGroupIff(prefix: string, gs: seq<Group>, trailer: string, group: string)
    requires KeyFree(prefix) && (prefix == "" || !IsSpace(prefix[0]))
    requires |gs| >= 1 && PlainGroups(gs) && AllSpace(trailer)
    ensures UserInGroup(Some(IdOutput(prefix, gs, trailer)), group) <==>
              exists i :: 0 <= i < |gs| && gs[i].name == group
  {
    GroupNamesRoundTrip(prefix, gs, trailer);
    var ns := Names(gs);
    if group in ns {
      var i :| 0 <= i < |ns| && ns[i] == group;
      assert gs[i].name == group;
    }
  }

  /**
    The older parser misses a third or later group: a user whose only link to a group
    is its third entry is in it for the current parser and not for the older one.
  */
  lemma LegacyMissesLaterGroups(prefix: string, gs: seq<Group>, trailer: string)
    requires KeyFree(prefix) && (prefix == "" || !IsSpace(prefix[0]))
    requires |gs| >= 3 && PlainGroups(gs) && AllSpace(trailer)
    requires gs[2].name != gs[0].name && gs[2].name != gs[1].name
    ensures UserInGroup(Some(IdOutput(prefix, gs, trailer)), gs[2].name)
    ensures !LegacyUserInGroup(Some(IdOutput(prefix, gs, trailer)), gs[2].name)
  {
    UserInGroupIff(prefix, gs, trailer, gs[2].name);
    LegacyGroupNamesRoundTrip(prefix, gs, trailer);
  }

  /** On well-formed output, a user is an administrator exactly when one of its groups is the admin group. */
  lemma UserIsAdminIff(prefix: string, gs: seq<Group>, trailer: string, env: string)
    requires KeyFree(prefix) && (prefix == "" || !IsSpace(prefix[0]))
    requires |gs| >= 1 && PlainGroups(gs) && AllSpace(trailer)
    ensures UserIsAdmin(Some(IdOutput(prefix, gs, trailer)), env) <==>
              exists i :: 0 <= i < |gs| && gs[i].name == AdminGroup(env)
    ensures env == "" ==>
              (UserIsAdmin(Some(IdOutput(prefix, gs, trailer)), env) <==>
                 exists i :: 0 <= i < |gs| && gs[i].name == "sudo")
  {
    UserInGroupIff(prefix, gs, trailer, AdminGroup(env));
  }

  /** The older check makes a user an administrator only through its first two groups. */
  lemma LegacyUserIsAdminIff(prefix: string, gs: seq<Group>, trailer: string, env: string)
    requires KeyFree(prefix)
    requires |gs| >= 2 && PlainGroups(gs)
    ensures LegacyUserIsAdmin(Some(IdOutput(prefix, gs, trailer)), env) <==>
              gs[0].name == AdminGroup(env) || gs[1].name == AdminGroup(env)
  {
    LegacyGroupNamesRoundTrip(prefix, gs, trailer);
  }
}
