# accounts-server-node core, in Dafny

A model of the pure logic inside the Menhera.org account portal: the `Aliases`
class, the login gate and the create-list checks of its HTTP routes, the
number theory behind its login quizzes, and the small validators and mappers
(alias names, the `id` group-list parser, the OpenID Connect claims).

Every operation is a pure function or a short method over immutable data:

- **Alias store.** The alias table is an insertion-ordered `seq<Alias>`, and the
  personal-alias index is a `map<string, seq<string>>`.
- **Login gate.** A session is a record. `now`, PAM's verdict, the UUIDs and the
  quiz factors are parameters.
- **Randomness.** Random draws come from a finite byte stream, consumed front to back.
  Each draw returns `Drawn(value, rest)`, or `Exhausted` when the given bytes run out.
- **Child processes.** The output of `id` is an `Option<string>`, with `None` for a
  failed run.

| module | file | models |
|---|---|---|
| `Wrappers` | wrappers.dfy | `Option` and `Result` |
| `Text` | text.dfy | the JavaScript string and array primitives the code uses: `split`, `join`, the trim functions, the `\s` class, whitespace tokenising, the default sort order |
| `Aliases` | aliases.dfy | the `Aliases` table and index, and every query and mutation |
| `AliasFile` | alias_file.dfy | `parse`, `encode` and `toString`, and the round trip between them |
| `AliasNames` | alias_names.dfy | `validateAliasName` |
| `IdGroups` | id_groups.dfy | `userInGroup`, `userIsAdmin` and `ADMIN_GROUP`; both the current parser and the older two-group one |
| `Oidc` | oidc.dfy | `findAccount`, the `claims` it releases, the declared scopes and claims, and `USER_EMAIL_DOMAIN` |
| `Routes` | routes.dfy | the challenge that `GET /login` issues, the `POST /auth` gate with `recordLoginFailure`, and the member normalisation of `POST /create-list` |
| `Arith`, `Fermat`, `Euclid` | arith.dfy, fermat.dfy, euclid.dfy | powers and divisibility, Fermat's little theorem, gcd, Bézout and Euclid's lemma |
| `Random`, `Decimal` | random.dfy, decimal.dfy | `Drawn` (a value drawn from a byte stream, or `Exhausted`), reading bytes as integers, and `String(n)` for natural numbers |
| `Primality` | primality.dfy | `power`, `getBitLength`, `getRandomBigInt`, `miillerTest`, `isPrime` |
| `FactorQuiz` | factor_quiz.dfy | `generateRandomNumber`, `generateRandomPrime`, `generatePrimeQuiz` |
| `GcdQuiz` | gcd_quiz.dfy | `bigIntGcd`, `generateRandomInteger`, `generateQuiz` |

`src/Aliases.ts` is an older copy of the class. Its lines 20-113 match
`src/lib/Aliases.ts` line for line, so the same model covers both files. The older
copy has no mailing-list methods, and its `toString` is at lines 115-118.

Where the two `userInGroup` implementations differ, both are modelled:

- `src/server/system.ts` reads every entry of the `groups=` field.
- `src/system.ts` matches a two-entry pattern, so it reports only the first two groups.

The difference is logged under Findings.

Duplicate names in the alias file are a hazard. Parsing a repeated name keeps only
the later line's users, but a personal alias recorded by the earlier line stays in
the index. `AliasFile.DuplicateNameKeepsStaleIndex` shows this on a two-line
example. So the index-exactness results for parsing assume that no name repeats.

## Model

| member | source | states |
|---|---|---|
| Aliases.AliasExists | src/lib/Aliases.ts:186-188 | true exactly when some entry of the table carries the name |
| Aliases.MailingListExists | src/lib/Aliases.ts:181-184 | a mailing list is an existing alias; with unique names, true exactly when the entry of that name has at least two members |
| Aliases.GetPersonalAliases | src/lib/Aliases.ts:111-113 | an unknown user has none; in a valid store the list holds exactly the aliases whose only member is the user |
| Aliases.GetMailingLists | src/lib/Aliases.ts:125-134 | every listed name is a key of the table. With unique names, a name is listed exactly when it is a mailing list, and the names come in table order, so each appears once |
| Aliases.GetMailingListMembers | src/lib/Aliases.ts:136-142 | fails with 'Alias is not a mailing list' exactly when the alias has fewer than two members; otherwise returns its stored members |
| Aliases.AddPersonalAlias | src/lib/Aliases.ts:84-92 | fails exactly when the name exists (as a personal alias or a list). Otherwise it appends `name -> [user]` at the end of the table and appends the name to the user's index list. Every other alias and every other user's list stay the same |
| Aliases.RemovePersonalAlias | src/lib/Aliases.ts:94-109 | an absent name changes nothing. It fails with 'Alias is not owned by user' exactly when the members are not `[user]`. Otherwise the alias is gone and the user's list loses its first occurrence of the name. With unique names the table is the old one with that one entry taken out, the others in their order. Every other alias and every other user's list stay the same |
| Aliases.CreateMailingList | src/lib/Aliases.ts:115-123 | fails exactly when the name exists or fewer than two users are given, with the existence error first. Otherwise the table is the old one with `alias -> users` appended at the end, and the index stays the same |
| Aliases.RemoveMailingListMember | src/lib/Aliases.ts:144-159 | fails exactly on a non-list or a non-member, in that order. A list left with fewer than two members is deleted, not demoted; with unique names the other entries keep their order. Otherwise the list keeps its place in the table, and its members are the old ones with the first occurrence of the user spliced out, still at least two. Everything else stays the same |
| Aliases.AddMailingListMember | src/lib/Aliases.ts:161-171 | fails exactly on a non-list or an existing member, in that order. Otherwise the list keeps its place in the table and the user is appended to its members; nothing else changes |
| Aliases.RemoveMailingList | src/lib/Aliases.ts:173-179 | fails exactly on a non-list. Otherwise the alias no longer exists and nothing else changes; with unique names the table is the old one with that entry taken out, the others in their order |
| Aliases.RemoveFirst | src/lib/Aliases.ts:104-107 | `splice(indexOf(x), 1)`: when `x` occurs, the result is the list with its first occurrence removed and the rest in order (one shorter, the same multiset less one `x`); otherwise the list is unchanged |
| Aliases.AddPersonalAliasValid | src/lib/Aliases.ts:84-92 | adding a personal alias keeps the store invariant: unique names, non-empty member lists, and an index that lists exactly each user's one-member aliases in table order |
| Aliases.RemovePersonalAliasValid | src/lib/Aliases.ts:94-109 | removing a personal alias keeps the store invariant |
| Aliases.CreateMailingListValid | src/lib/Aliases.ts:115-123 | creating a list keeps the store invariant |
| Aliases.RemoveMailingListMemberValid | src/lib/Aliases.ts:144-159 | removing a list member keeps the store invariant, including when the list is deleted |
| Aliases.AddMailingListMemberValid | src/lib/Aliases.ts:161-171 | adding a list member keeps the store invariant |
| Aliases.RemoveMailingListValid | src/lib/Aliases.ts:173-179 | removing a list keeps the store invariant |
| AliasFile.EmptyValid | src/lib/Aliases.ts:23-24 | the empty table and index form a valid store |
| AliasFile.CleanLines | src/lib/Aliases.ts:32-36 | keeps at most as many lines as it is given. Every kept line is non-empty, has no trailing whitespace and is not a comment |
| AliasFile.CleanLinesKeeps | src/lib/Aliases.ts:32-36 | lines that are already clean pass through unchanged |
| AliasFile.CleanLinesDropsBlank | src/lib/Aliases.ts:32-36 | an empty or whitespace-only line is dropped |
| AliasFile.CleanLinesDropsComment | src/lib/Aliases.ts:33-35 | a line that is a comment once its trailing whitespace is removed is dropped |
| AliasFile.CleanLinesTrims | src/lib/Aliases.ts:32-36 | any other line is kept, without its trailing whitespace, ahead of the cleaned rest |
| AliasFile.Logical | src/lib/Aliases.ts:37-48 | gluing keeps every character, in order; the only failure is 'Invalid line'; with no continuation lines the lines pass through unchanged |
| AliasFile.LeadingContinuationFails | src/lib/Aliases.ts:39-44 | a continuation line with no logical line before it throws 'Invalid line' |
| AliasFile.ContinuationJoins | src/lib/Aliases.ts:39-41 | the two-line instance: a continuation line is appended to the non-empty logical line before it |
| AliasFile.LogicalFailsIff | src/lib/Aliases.ts:37-48 | over non-empty lines, the loop throws exactly when the first line is a continuation with no logical line before it |
| AliasFile.CleanLogicalFailsIff | src/lib/Aliases.ts:32-48 | the cleaned lines of a file fail to glue exactly when the first of them is indented |
| AliasFile.GlueRun | src/lib/Aliases.ts:39-41 | a run of continuation lines is glued, in order, onto the non-empty line before it |
| AliasFile.LogicalGroups | src/lib/Aliases.ts:37-48 | lines made of groups, each a non-indented non-empty head followed by indented lines, glue into exactly one logical line per group (the head followed by its continuation lines), in order |
| AliasFile.ParseLine | src/lib/Aliases.ts:51-57 | fails with 'Invalid line' exactly when the line does not have exactly one colon. Otherwise the line is `pre:post` with no colon in `pre`; the name is `pre` trimmed and the users are the whitespace-separated tokens of `post` |
| AliasFile.ParseLines | src/lib/Aliases.ts:50-54 | succeeds exactly when every logical line has one colon; entry i is the parse of line i |
| AliasFile.LoadTable | src/lib/Aliases.ts:58-66 | when the names are new and distinct, loading appends exactly the entries that have users, in order. Entries without users are skipped |
| AliasFile.LoadValid | src/lib/Aliases.ts:58-66 | under the same condition, the one-user entries build an exact personal-alias index |
| AliasFile.DuplicateNameKeepsStaleIndex | src/lib/Aliases.ts:60-66 | a repeated name keeps only the later users, but the earlier one-user line leaves a stale index entry |
| AliasFile.Parse | src/lib/Aliases.ts:31-69 | the only failure is 'Invalid line'; a parsed table has unique names and no alias without users |
| AliasFile.ParseValid | src/lib/Aliases.ts:31-69 | a parse whose user-carrying names do not repeat yields a valid store |
| AliasFile.LineParses | src/lib/Aliases.ts:75 | one encoded `name: u1 u2` line has exactly one colon and parses back to its alias |
| AliasFile.SplitEncode | src/lib/Aliases.ts:71-79 | `encode()` writes one `name: users` line per alias, in table order, then a final newline: split at newlines it gives those lines and one empty string |
| AliasFile.ParseEncode | src/lib/Aliases.ts:71-79 | the encoded file passes cleaning, gluing and line parsing untouched and reaches the load loop as the original table |
| AliasFile.EncodeRoundTrip | src/lib/Aliases.ts:71-79 | the parsed encoding gives back the same table, with an exact index. This needs unique names; each name and user must be a word without whitespace or `:`, and no name may start with `#` |
| AliasFile.ToStringRoundTrip | src/lib/Aliases.ts:190-193 | reading back `toString()` of a valid store with such words gives the same table and the same personal aliases for every user |
| AliasNames.ValidateAliasName | src/server/system.ts:62-64 | an accepted name has 1 to 32 characters |
| AliasNames.ValidateAliasNameIff | src/server/system.ts:62-64 | accepts exactly the names of 1 to 32 characters that start with `a-z` and continue with `a-z`, `0-9`, `.` or `-` |
| AliasNames.ValidNameEncodable | src/server/system.ts:62-64 | an accepted name is a word of the alias file and does not start with `#` |
| AliasNames.ValidListEncodable | src/server/system.ts:62-64 | a list under an accepted name, whose users are words, survives the alias file's round trip |
| IdGroups.UserInGroup | src/server/system.ts:38-42 | a failed `id` run means the user is in no group |
| IdGroups.GroupsFieldNeedsKey | src/server/system.ts:44 | the group-list pattern matches only where `groups=` occurs |
| IdGroups.NoKeyNoGroups | src/server/system.ts:44-57 | output without `groups=` gives no groups, so the user is in no group |
| IdGroups.GroupNamesRoundTrip | src/server/system.ts:43-56 | on well-formed `id` output (a line ending in the groups field, then any whitespace such as the closing newline), the parser returns the names of all groups, in order |
| IdGroups.UserInGroupIff | src/server/system.ts:36-60 | on well-formed output with any whitespace after the line, the user is in a group exactly when one of the listed groups has that name |
| IdGroups.AdminGroup | src/defs.ts:20 | a set `ADMIN_GROUP` is used as given; unset or empty, it is `sudo` |
| IdGroups.UserIsAdminIff | src/server/system.ts:66-68 | on well-formed output with any whitespace after the line, the user is an administrator exactly when one of its groups is the admin group. That is `sudo` when the variable is unset |
| IdGroups.LegacyUserInGroup | src/system.ts:52-56 | the older check: a failed `id` run means the user is in no group |
| IdGroups.LegacyGroupNames | src/system.ts:57 | the two-entry pattern yields either no names or exactly two |
| IdGroups.LegacySearchNeedsComma | src/system.ts:57 | the pattern cannot match text without a comma |
| IdGroups.LegacyNeedsTwo | src/system.ts:57-58 | well-formed output with fewer than two groups, whatever whitespace ends it, yields no names, so the user is in no group |
| IdGroups.LegacyGroupNamesRoundTrip | src/system.ts:57 | on well-formed output with at least two groups, whatever follows the groups field, the names are those of the first two groups |
| IdGroups.LegacyIsFirstTwo | src/system.ts:57 | on such output, with any whitespace after the line, the older parser's names are the first two that the current parser returns |
| IdGroups.LegacyMissesLaterGroups | src/system.ts:57-58 | on well-formed output with any whitespace after the line, the older parser misses a membership that only the third group gives; the current parser finds it |
| IdGroups.LegacyUserIsAdminIff | src/system.ts:67-69 | on well-formed output with at least two groups, whatever follows the groups field, the older parser makes a user an administrator exactly when one of its first two groups is the admin group |
| Oidc.EmailDomain | src/defs.ts:24 | a set `USER_EMAIL_DOMAIN` is used as given; unset or empty, it is `menhera.org` |
| Oidc.TableScopesDeclared | src/server/oidc/configuration.ts:40-45 | every scope in the claims table is a declared scope |
| Oidc.Claims | src/server/oidc/configuration.ts:53-72 | `sub` is always the id. `email` (`id@domain`) and `email_verified` (true) are present exactly when `email` is one of the space-separated tokens. `name` (the id) is present exactly when `profile` is. No other claim appears |
| Oidc.ClaimsFollowTable | src/server/oidc/configuration.ts:81-84 | the released claims are exactly `sub` plus the claims the table assigns to the requested scopes |
| Oidc.ClaimsOfWords | src/server/oidc/configuration.ts:64-70 | with the scope written as space-separated words, email is released exactly when a whole word is `email`, and name exactly when one is `profile` |
| Oidc.FindAccount | src/server/oidc/configuration.ts:49-76 | an account exists exactly when the user does, and carries the id it was looked up by |
| Oidc.FoundAccountClaims | src/server/oidc/configuration.ts:49-76 | a found account's claims have `sub` equal to the lookup id, and follow the table |
| Routes.RecordLoginFailure | src/server/basic-routes.ts:263-278 | touches only the counter and the lockout. While locked, it only slides the lockout to now + 600000 ms. Otherwise it counts the failure; past two failures it locks and resets the counter |
| Routes.RecordLoginFailureBounds | src/server/basic-routes.ts:268-277 | the counter stays within 0..2; each failure either locks or raises the count |
| Routes.ThreeFailuresLock | src/server/basic-routes.ts:268-277 | three failures from a clean, unlocked session lock it for 600 s from the third |
| Routes.IssueChallenge | src/server/basic-routes.ts:88-102 | a logged-in session is unchanged. Otherwise the challenge stores the token, the expected factors `p` and `q`, and the field name `password-<uuid>`. The counter and the lockout are never changed |
| Routes.ChallengeKeepsLockout | src/server/basic-routes.ts:93-102 | reloading the login page never lifts a lockout |
| Routes.FactorsMatchIff | src/server/basic-routes.ts:305-307 | the answer passes exactly when its two smallest comma-separated parts equal the two expected factors as a multiset |
| Routes.FactorsInEitherOrder | src/server/basic-routes.ts:305-307 | `p,q` and `q,p` both pass |
| Routes.Authenticate | src/server/basic-routes.ts:251-312 | login succeeds exactly when every check passes: a safe return target, no user yet, a field name, a valid token, no lockout, an empty decoy, matching factors, and PAM's approval. The result is a fresh session for the submitted user. An unsafe target fails exactly when the target is unsafe. A logged-in session only clears its target. With every form field a single string, each rejection records a failure, except a missing field name |
| Routes.AuthenticateKeepsCounterBound | src/server/basic-routes.ts:263-278 | no request leaves the failure counter above two |
| Routes.ReturnTargetDefault | src/server/basic-routes.ts:253-257 | an unset target means `/`, which is accepted; `//host` is refused |
| Routes.MissingFieldNameNotCounted | src/server/basic-routes.ts:279-284 | a session without a password field name is rejected without recording a failure |
| Routes.BadTokenCounted | src/server/basic-routes.ts:293-298 | outside a lockout, a bad or missing token is an auth error that is counted |
| Routes.TokenCheckedBeforeLockout | src/server/basic-routes.ts:293-304 | the token is checked before the lockout: a bad token while locked is an ordinary auth error that slides the lockout |
| Routes.LockedRefusesEvenCorrect | src/server/basic-routes.ts:299-304 | while locked, a valid token gets 'too many failures' whatever the answer, and the lockout slides |
| Routes.FourthAttemptLockedOut | src/server/basic-routes.ts:263-304 | three wrong answers lock the session; a correct fourth attempt inside the window is refused and pushes the lockout further out |
| Routes.ChallengeThenLogin | src/server/basic-routes.ts:93-102 | a challenge answered with the factors in either order, the password under the issued field and an empty decoy logs the user in |
| Routes.ListUsers | src/server/basic-routes.ts:465 | every normalised member is non-empty, has no comma and no whitespace at either end |
| Routes.ListUsersOfPadded | src/server/basic-routes.ts:465 | names joined with commas, each with any whitespace padding, split back into exactly those names in order |
| Routes.ListUsersOfJoin | src/server/basic-routes.ts:465 | trimmed, comma-free names joined with bare commas split back into exactly those names |
| Routes.AllListsUser | src/defs.ts:22 | a set `ALL_LISTS_USER` is used as given; unset or empty, it is `root` |
| Routes.AddIfMissing | src/server/basic-routes.ts:466-468 | after the conditional push the user is present; the old list is a prefix; the list grows by one exactly when the user was missing |
| Routes.NormalizeListMembers | src/server/basic-routes.ts:465-473 | appends the all-lists user unless it is present. Fails exactly when the trimmed non-empty parts are none, or only the all-lists user. On success the members are the trimmed non-empty parts, in order, then that user if it was absent, so the length grows by one exactly when it was absent; there are at least two |
| Routes.NormalizedListCreates | src/server/basic-routes.ts:466-473 | an accepted member list always satisfies `createMailingList`'s member count |
| Primality.Power | src/lib/bigint-primarity.ts:22-32 | square-and-multiply returns x^y mod p, and 1 for y = 0 |
| Primality.BitLength | src/lib/bigint-primarity.ts:34-41 | n < 2^i, and 2^(i-1) <= n unless n = 0 |
| Primality.BitLengthLeast | src/lib/bigint-primarity.ts:34-41 | the bit length is the least i with n < 2^i |
| Primality.GetBitLength | src/lib/bigint-primarity.ts:34-41 | the shifting loop returns i with n < 2^i and, unless i = 0, 2^(i-1) <= n; `getBitLength` in src/server/auth-quiz-factorization.ts:31-38 is the same loop |
| Primality.GetRandomBigInt | src/lib/bigint-primarity.ts:43-62 | a draw that ends the loop lies in [0, max] and consumes bytes |
| Primality.GetRandomBigIntIsRejection | src/lib/bigint-primarity.ts:49-60 | equals a plain rejection sampler, because a shifted sample is always above max |
| Primality.ShapeAcceptsUnshifted | src/lib/bigint-primarity.ts:56-60 | a shaped sample is accepted exactly when the raw sample was at most max, and then it is the raw sample |
| Primality.ShiftedKeepsTopBit | src/lib/bigint-primarity.ts:56-59 | the right shift keeps the top bit set |
| Primality.WitnessRange | src/lib/bigint-primarity.ts:64-65 | for n >= 5, the witness lies in [2, n-2] |
| Primality.OddPartDecomposes | src/lib/bigint-primarity.ts:87-89 | after halving, d is odd and n-1 = d * 2^s |
| Primality.SqPow | src/lib/bigint-primarity.ts:71-73 | squaring `x mod n` i times gives x^(2^i) mod n |
| Primality.SquaringsIff | src/lib/bigint-primarity.ts:71-80 | the squaring loop returns true exactly when one of the next s squares is n-1; a square that hits 1 first stays 1 |
| Primality.MillerTestIff | src/lib/bigint-primarity.ts:64-81 | a witness passes exactly when a^d = 1 or a^(d*2^r) = n-1 (mod n) for some r from 0 to s |
| Primality.MillerLoop | src/lib/bigint-primarity.ts:64-81 | the loop computes the Miller-Rabin verdict and squares at most s times |
| Primality.IsPrime | src/lib/bigint-primarity.ts:83-96 | false for n <= 1 and n = 4; true for 2 and 3 |
| Primality.SquaringsSound | src/lib/bigint-primarity.ts:71-80 | modulo a prime, a squaring chain that reaches 1 passes through n-1 first, so the loop returns true |
| Primality.MillerTestSound | src/lib/bigint-primarity.ts:64-81 | modulo a prime, every witness in [2, n-2] passes |
| Primality.Rounds | src/lib/bigint-primarity.ts:91-93 | the rounds never fail for lack of state and never hand back more bytes than they were given |
| Primality.RoundsPass | src/lib/bigint-primarity.ts:91-93 | a round whose witness passes goes on to the next round with the rest of the bytes |
| Primality.RoundsSound | src/lib/bigint-primarity.ts:91-95 | when every witness passes, the rounds never answer false |
| Primality.IsPrimeSound | src/lib/bigint-primarity.ts:83-96 | `isPrime` never rejects a prime, whatever the draws |
| FactorQuiz.DrawOfLength | src/server/auth-quiz-factorization.ts:44-51 | the shifted sample has exactly k bits, for k >= 1 |
| FactorQuiz.GenerateRandomNumber | src/server/auth-quiz-factorization.ts:40-52 | throws exactly for bitLength > 64; otherwise 2^(k-1) <= n < 2^k |
| FactorQuiz.GenerateRandomNumberReaches | src/server/auth-quiz-factorization.ts:44-51 | every k-bit number is produced by some 8-byte draw |
| FactorQuiz.GenerateRandomPrime | src/server/auth-quiz-factorization.ts:54-60 | throws exactly for bitLength > 64; the result has bitLength bits and is one that `isPrime` accepted |
| FactorQuiz.FirstPrimeKept | src/server/auth-quiz-factorization.ts:54-60 | a first draw that is prime and accepted is returned |
| FactorQuiz.GeneratePrimeQuiz | src/server/auth-quiz-factorization.ts:29-70 | p and q are 48-bit; n = p * q; 2^94 <= n < 2^96; all three are canonical decimals |
| FactorQuiz.MakeQuiz | src/server/auth-quiz-factorization.ts:65-69 | the three strings are the canonical decimals of p, q and p * q |
| FactorQuiz.GeneratedQuizAnswerable | src/server/auth-quiz-factorization.ts:62-70 | answering a generated quiz with its two factors, in either order, logs in |
| Decimal.DecimalRoundTrip | src/server/auth-quiz-factorization.ts:66-68 | the decimal of n reads back as n |
| Decimal.ValueRoundTrip | src/server/auth-quiz.ts:52-55 | a canonical decimal is the decimal of its value |
| GcdQuiz.BigIntGcd | src/server/auth-quiz.ts:29-39 | throws exactly when an input is not positive. Otherwise the result is gcd(a, b) in [1, min(a, b)]; it divides both inputs, and every common divisor divides it |
| GcdQuiz.GenerateRandomInteger | src/server/auth-quiz.ts:41-45 | the result lies in [2^63, 2^64 + 2^63) |
| GcdQuiz.GenerateQuiz | src/server/auth-quiz.ts:47-57 | never throws, and draws exactly 16 bytes. a and b are at least 2^63. All four fields are canonical decimals; the answers are those of gcd(a, b) and of a + b |
| GcdQuiz.QuizOf | src/server/auth-quiz.ts:51-56 | the four fields are canonical decimals of a, b, their gcd and their sum |
| Random.Uint64 | src/server/auth-quiz.ts:42-44 | a `BigUint64Array` draw takes eight bytes and lies below 2^64 |
| Random.LittleEndianOnto | src/server/auth-quiz-factorization.ts:44-48 | every value below 2^(8k) is some k-byte draw |
| Text.SplitJoin | src/server/basic-routes.ts:306 | splitting a joined list of separator-free parts gives the parts back |
| Text.JoinSplit | src/lib/Aliases.ts:51 | joining the parts of `split(c)` with `c` gives the string back |
| Text.SplitLength | src/lib/Aliases.ts:51-52 | `split` gives one more part than there are separators |
| Text.SplitAtSep | src/lib/Aliases.ts:57 | splitting at a separator character splits the two sides independently |
| Text.TokensSplit | src/lib/Aliases.ts:57 | a whitespace character separates the tokens before it from those after it |
| Text.TokensBlank | src/lib/Aliases.ts:57 | a whitespace-only string has no tokens |
| Text.TokensWord | src/lib/Aliases.ts:57 | a non-empty string without whitespace is one token |
| Text.TrimSlice | src/lib/Aliases.ts:56 | `trim` returns a middle slice of its input with only whitespace outside it and none at either end |
| Text.TrimFixed | src/server/basic-routes.ts:465 | a string without whitespace at either end is its own trim |
| Text.TrimTrailing | src/server/system.ts:43 | `trim` takes off any whitespace after a string with none at either end, and leaves that string whole |
| Text.TokensOfJoin | src/lib/Aliases.ts:57 | the tokens after `name:` in an encoded line are the members |
| Text.Sort | src/server/basic-routes.ts:305-306 | `sort()` returns a sorted permutation |
| Text.SortedUnique | src/server/basic-routes.ts:305-306 | two sorted permutations of the same strings are equal |

## Left out

- I/O and foreign calls are inputs:
  - reading and writing `/etc/aliases` and running `postalias`;
  - PAM (its verdict is a `bool` input);
  - `id` (its output is an `Option<string>`);
  - `userExists` (a `bool` input);
  - the clock (`now`);
  - `crypto.randomUUID` and the quiz factors (string inputs).
- The rejection loops in `getRandomBigInt`, `generateRandomNumber` and `generateRandomPrime` draw from a finite byte stream. Running out gives `Exhausted`. Termination on an endless random source is not claimed.
- Random.Uint64: `BigUint64Array` is read in little-endian byte order. The platform order is not modelled.
- JavaScript object quirks are not modelled: the `in` operator also matches prototype keys such as `constructor`, and `for…in` visits integer-like keys first. The table is a plain insertion-ordered sequence of unique names.
- Strings are Dafny's `seq<char>` of Unicode scalar values, not UTF-16 code units. The sort order and `\s` differ from JavaScript only for characters outside the Basic Multilingual Plane.
- Routes: only the gate's session fields are modelled. Redirect URLs, flash messages, rendering, and the session store's persistence are not. A field that is unset or falsy is `""` or `0`.
- Routes.Authenticate: the password is checked only by PAM's verdict, and the username is passed through unchecked.
- Routes.Authenticate: every form field is a single string. `express.urlencoded` (src/server/middlewares.ts:22) turns a repeated field into an array; a repeated `quizFactorizationAnswer` then makes `split` throw, and the request ends in the error handler without recording a failure. That path is not modelled.
- Routes.NormalizeListMembers: the `users` field is taken to be one string. When it is absent (`undefined`) or repeated (an array under `express.urlencoded`, src/server/middlewares.ts:22), `split` throws at src/server/basic-routes.ts:465, and the catch at src/server/basic-routes.ts:498-502 answers 500 `internal-error`. That path is not modelled: the model reads an unset field as `""`, which gives `InvalidUsersCount` (400).
- AliasFile.ContinuationJoins: states only the two-line case; the general case is `AliasFile.LogicalGroups`.
- Routes: a failed attempt does not consume the token or the stored answers, and the model does not claim otherwise.
- Routes: `POST /create-list` lower-cases the list name before validating it. `toLowerCase` has full-Unicode case mapping, which is not modelled. The validator itself is modelled.
- Routes: the `for…in` user-existence loop after normalisation is not modelled. It runs over array indices and calls the foreign `userExists`.
- Oidc: only account lookup and claims are modelled. The rest of the provider configuration (clients, cookies, TTLs, PKCE, interactions, the adapter) is framework setup.
- AliasFile.ParseValid: the index is proved exact only when no user-carrying name repeats. With a repeated name the source leaves a stale entry; `AliasFile.DuplicateNameKeepsStaleIndex` shows it.
- FactorQuiz.GenerateRandomPrime: the result is stated to be a number that `isPrime` accepted. It is not claimed prime, because Miller-Rabin is probabilistic. Only the converse is proved: `Primality.IsPrimeSound` shows that a prime is never rejected.

## Findings

| source | as written | input that shows it | evidently intended | confidence | as-written member | corrected member |
|---|---|---|---|---|---|---|
| src/system.ts:57 | `/groups=[0-9]+\((.*?)\)(?:,[0-9]+\((.*?)\))/` captures only the first two groups of `id` output | `uid=1000(u) gid=1000(u) groups=1000(u),4(adm),27(sudo)`: `userIsAdmin` is false for a member of `sudo` | every listed group counts; the group-list parser in src/server/system.ts:43-57 reads them all | high, not executed | IdGroups.LegacyMissesLaterGroups | IdGroups.UserInGroupIff |
