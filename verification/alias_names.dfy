/**
  `validateAliasName`: the names the portal lets users choose for aliases and lists,
  `^[a-z][a-z0-9.-]{0,31}$`, matched here by a left-to-right scan of the pattern.
*/
module AliasNames {
  import opened Text
  import Aliases
  import AliasFile

  predicate IsLower(c: char) {
    'a' <= c <= 'z'
  }

  /** The class `[a-z0-9.-]`. */
  predicate IsNameChar(c: char) {
    IsLower(c) || ('0' <= c <= '9') || c == '.' || c == '-'
  }

  /** The longest name the pattern admits: one leading letter and up to 31 more. */
  const MaxNameLength: nat := 32

  /** `[a-z0-9.-]{0,budget}$` from position `i`. */
  function TailMatches(s: string, i: nat, budget: nat): (ok: bool)
    requires i <= |s|
    ensures ok ==> |s| - i <= budget
    decreases |s| - i
  {
    if i == |s| then true
    else if budget == 0 || !IsNameChar(s[i]) then false
    else TailMatches(s, i + 1, budget - 1)
  }

  /** `!!aliasName.match(/^[a-z][a-z0-9.-]{0,31}$/)`. */
  function ValidateAliasName(name: string): (ok: bool)
    ensures ok ==> 1 <= |name| <= MaxNameLength
  {
    |name| >= 1 && IsLower(name[0]) && TailMatches(name, 1, MaxNameLength - 1)
  }

  /** The scan accepts exactly a short enough run of name characters. */
  lemma {:induction false} TailMatchesIff(s: string, i: nat, budget: nat)
    requires i <= |s|
    ensures TailMatches(s, i, budget) <==>
            |s| - i <= budget && forall k :: i <= k < |s| ==> IsNameChar(s[k])
    decreases |s| - i
  {
    if i < |s| && budget > 0 && IsNameChar(s[i]) {
      TailMatchesIff(s, i + 1, budget - 1);
    }
  }

  /**
    The validator accepts exactly the strings of 1 to 32 characters whose first is a
    lower-case letter and whose others are letters, digits, dots or hyphens.
  */
  lemma ValidateAliasNameIff(name: string)
    ensures ValidateAliasName(name) <==>
            && 1 <= |name| <= MaxNameLength
            && IsLower(name[0])
            && forall k :: 1 <= k < |name| ==> IsNameChar(name[k])
  {
    if |name| >= 1 {
      TailMatchesIff(name, 1, MaxNameLength - 1);
    }
  }

  /**
    A valid name is a word of the alias file that does not start a comment, so an
    alias under it survives the file's round trip.
  */
  lemma ValidNameEncodable(name: string)
    requires ValidateAliasName(name)
    ensures AliasFile.Word(name) && name[0] != '#'
  {
    ValidateAliasNameIff(name);
    assert forall k :: 0 <= k < |name| ==> IsNameChar(name[k]);
  }

  /** A list whose name passes the validator and whose members are words can be written out and read back. */
  lemma ValidListEncodable(name: string, members: seq<string>)
    requires ValidateAliasName(name) && |members| >= 1
    requires forall i :: 0 <= i < |members| ==> AliasFile.Word(members[i])
    ensures AliasFile.Encodable(Aliases.Alias(name, members))
  {
    ValidNameEncodable(name);
  }
}
