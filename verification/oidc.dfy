/**
  The OpenID Connect provider's account lookup and the claims it releases: `sub` always,
  `email` and `email_verified` for the `email` scope and `name` for the `profile` scope,
  as in section 5.4 of OpenID Connect Core 1.0. Whether the user exists is an input.
*/
module Oidc {
  import opened Wrappers
  import opened Text

  /** The domain of every user's address (`USER_EMAIL_DOMAIN`, when the environment leaves it unset). */
  const DefaultEmailDomain := "menhera.org"

  /** `process.env.USER_EMAIL_DOMAIN || 'menhera.org'`: an unset or empty variable gives the default. */
  function EmailDomain(env: string): (d: string)
    ensures d != ""
    ensures env != "" ==> d == env
    ensures env == "" ==> d == "menhera.org"
  {
    if env == "" then DefaultEmailDomain else env
  }

  /** The scopes the provider declares. */
  const Scopes: seq<string> := ["openid", "offline_access", "email", "profile"]

  /** The claims each scope stands for. */
  const ClaimsTable: map<string, seq<string>> := map[
    "email" := ["email", "email_verified"],
    "profile" := ["name"]
  ]

  /** A claim value: the account's claims are strings and one boolean. */
  datatype ClaimValue = Str(s: string) | Bool(b: bool)

  /** The object `claims(_use, scope)` builds, as a map from claim name to value. */
  type AccountClaims = map<string, ClaimValue>

  /** `scope.split(" ")`. */
  function ScopeTokens(scope: string): seq<string> {
    Split(scope, IsBlank)
  }

  /**
    `claims(_use, scope)`: `sub`, then the `email` claims when `email` is one of the
    space-separated tokens of the requested scope, then `name` when `profile` is.
  */
  function Claims(id: string, scope: string, domain: string): (c: AccountClaims)
    ensures "sub" in c && c["sub"] == Str(id)
    ensures "email" in c <==> "email" in ScopeTokens(scope)
    ensures "email_verified" in c <==> "email" in ScopeTokens(scope)
    ensures "name" in c <==> "profile" in ScopeTokens(scope)
    ensures "email" in c ==> c["email"] == Str(id + "@" + domain) && c["email_verified"] == Bool(true)
    ensures "name" in c ==> c["name"] == Str(id)
    ensures c.Keys <= {"sub", "email", "email_verified", "name"}
  {
    var scopes := ScopeTokens(scope);
    var accountInfo := map["sub" := Str(id)];
    var withEmail :=
      if "email" in scopes then accountInfo + map["email" := Str(id + "@" + domain), "email_verified" := Bool(true)]
      else accountInfo;
    if "profile" in scopes then withEmail + map["name" := Str(id)] else withEmail
  }

  /** The account `findAccount` returns: its id, and the claims it releases per scope. */
  datatype Account = Account(accountId: string)

  /** `findAccount(ctx, id)`: an account for an existing user, nothing otherwise. */
  function FindAccount(id: string, userExists: bool): (r: Option<Account>)
    ensures r.Some? <==> userExists
    ensures r.Some? ==> r.value.accountId == id
  {
    if userExists then Some(Account(id)) else None
  }

  /** The claims of a found account. */
  function AccountClaimsOf(account: Account, scope: string, domain: string): AccountClaims {
    Claims(account.accountId, scope, domain)
  }

  /** The claims the table assigns to the declared scopes among `tokens`, and `sub`. */
  function Declared(tokens: seq<string>): set<string> {
    {"sub"} + set t, k | t in tokens && t in ClaimsTable && k in ClaimsTable[t] :: k
  }

  /** Every scope the table names is declared. */
  lemma TableScopesDeclared()
    ensures forall t :: t in ClaimsTable ==> t in Scopes
  {
    assert Scopes[2] == "email" && Scopes[3] == "profile";
  }

  /** The claims released are exactly those the table assigns to the requested scopes. */
  lemma ClaimsFollowTable(id: string, scope: string, domain: string)
    ensures Claims(id, scope, domain).Keys == Declared(ScopeTokens(scope))
  {
    var tokens := ScopeTokens(scope);
    var c := Claims(id, scope, domain);
    assert ClaimsTable["email"] == ["email", "email_verified"];
    assert ClaimsTable["profile"] == ["name"];
    forall k | k in Declared(tokens)
      ensures k in c
    {
      if k != "sub" {
        var t :| t in tokens && t in ClaimsTable && k in ClaimsTable[t];
        assert t == "email" || t == "profile";
      }
    }
    forall k | k in c
      ensures k in Declared(tokens)
    {
      if k == "email" || k == "email_verified" {
        assert k in ClaimsTable["email"];
      } else if k == "name" {
        assert k in ClaimsTable["profile"];
      }
    }
  }

  /**
    A scope written as space-separated words releases the email claims exactly when
    one word is `email`, and the name exactly when one word is `profile`: a word that
    merely contains them releases nothing.
  */
  lemma ClaimsOfWords(id: string, words: seq<string>, domain: string)
    requires |words| >= 1
    requires forall i :: 0 <= i < |words| ==> Free(words[i], IsBlank)
    ensures var c := Claims(id, Join(words, " "), domain);
            && c.Keys == Declared(words)
            && ("email" in c <==> "email" in words)
            && ("name" in c <==> "profile" in words)
  {
    SplitJoin(words, ' ', IsBlank);
    ClaimsFollowTable(id, Join(words, " "), domain);
  }

  /** A found account's claims are its user's: `sub` is the id the account was found by. */
  lemma FoundAccountClaims(id: string, scope: string, domain: string)
    ensures FindAccount(id, true).Some?
    ensures var c := AccountClaimsOf(FindAccount(id, true).value, scope, domain);
            c["sub"] == Str(id) && c.Keys == Declared(ScopeTokens(scope))
  {
    ClaimsFollowTable(id, scope, domain);
  }
}
