# Gamified Learning Platform: leaderboard, password, age and sign-in logic in Dafny

This project models the parts of the platform's Python code that hold real
logic, and proves properties of them:

- **Leaderboard structures** (`app/src/utils/calculateRankings.py`, in `rankings.dfy`):
  - `UserEntryNode` is a user record that also serves as a link of a bucket chain.
  - `UserHashTable` is a separate-chaining hash table from username to entry. It supports insert-or-update, delete and lookup.
  - `PointsTree` is a points-keyed tree node. Its lookups are written, but its insertion only handles the empty tree.
  - The table and the tree node are classes whose methods update fields in place. A ghost view (the chain of each bucket, and a map from points to users) states what the table and the tree hold.
- **Password validator** (`passwordStrength.py`, in `password.dfy`): `validate_password` and its character classes.
- **Age computation** (`app/src/calculateAge.py`, in `age.dfy`):
  - `calculate_age` parses a birthday with the rules of `strptime(..., "%Y-%m-%d")` and counts the whole years until today.
  - Today's date is a parameter.
- **Sign-in and registration** (`app/src/auth.py`, in `auth.dfy`):
  - The lockout state machine of `login_post`. It resolves the account, keeps the failed-attempt counter, and sets the session's `login_type`.
  - The ordered validation chain of `register`, including its email pattern.
  - The database lookups, the bcrypt comparison and the strength checker's answer are inputs.
- **Shared types** (`wrappers.dfy`): `Option`, `Result` and `Outcome`. A Python function that raises becomes one returning `Failure`/`Fail`.

## Model

| member | source | states |
|---|---|---|
| Rankings.Capacity | app/src/utils/calculateRankings.py:46 | the capacity is the least integer at least `1.2 * numElems` (`ceil`, computed exactly) |
| Rankings.ReduceIsMod | app/src/utils/calculateRankings.py:50 | the bucket reduction used by the hash function is the remainder modulo the capacity, in `[0, capacity)` as Python's `%` |
| Rankings.FindIn | app/src/utils/calculateRankings.py:108-112 | a chain search returns the first node carrying the username, and finds nothing exactly when no node of the chain carries it |
| Rankings.UserEntryNode.constructor | app/src/utils/calculateRankings.py:27-34 | a new entry holds the given name, username and points, with no tree reference and no successor |
| Rankings.UserEntryNode.SetPointsTree | app/src/utils/calculateRankings.py:36-37 | the entry's tree back-reference becomes the given node and nothing else changes |
| Rankings.UserHashTable.constructor | app/src/utils/calculateRankings.py:42-47 | a new table is valid and empty: size 0, load factor 3, capacity `ceil(1.2 * numElems)`, every bucket empty, `courseID` left `None` whatever is passed |
| Rankings.UserHashTable.HashingFunc | app/src/utils/calculateRankings.py:49-50 | the bucket index of a username lies in `[0, capacity)` |
| Rankings.UserHashTable.LookupPresent | app/src/utils/calculateRankings.py:104-114 | in a valid table, a username has a node in its bucket exactly when it is one of the stored usernames |
| Rankings.UserHashTable.GetUser | app/src/utils/calculateRankings.py:104-114 | succeeds exactly when the username is stored, returning the node of its bucket that carries it; otherwise fails with `UserDoesNotExist` |
| Rankings.UserHashTable.InsertUser | app/src/utils/calculateRankings.py:54-81 | for any entry (one bound for an empty bucket must have no successor), keeps the table valid and adds the username to the stored set. For a stored username, name and points are copied onto the existing node, and size, chains and all other nodes are unchanged. For a new username, the entry goes to the front of its bucket's chain, size grows by one, lookup finds the entry, and the entry keeps its own name and points |
| Rankings.UserHashTable.PushFront | app/src/utils/calculateRankings.py:77-79 | a new entry is linked before the bucket's old head and becomes the head; size grows by one; no old node changes |
| Rankings.UserHashTable.LinkFront | app/src/utils/calculateRankings.py:59-61 | an entry whose successor is the bucket's head becomes the head; size grows by one; the table stays valid |
| Rankings.UserHashTable.Overwrite | app/src/utils/calculateRankings.py:69-72 | the stored node for the username receives the new name and points; no other node's name or points change |
| Rankings.UserHashTable.Locate | app/src/utils/calculateRankings.py:86-100 | the walk stops at the first node of the bucket that carries the username, with its predecessor; it ends at `None` exactly when the username is not stored |
| Rankings.UserHashTable.DeleteUser | app/src/utils/calculateRankings.py:83-102 | fails with `UserDoesNotExist` exactly when the username is not stored, changing nothing. Otherwise it unlinks that node from its chain, decrements size, and removes the username from the stored set, and the table stays valid. The footprint loses exactly that node, and the removed node keeps its `next` |
| Rankings.UserHashTable.Splice | app/src/utils/calculateRankings.py:91-96 | unlinking a node by pointing its predecessor (or the bucket slot) at its successor leaves a valid table with that node removed from its chain and from the stored usernames; the removed node's `next` is untouched |
| Rankings.UserHashTable.Bypass | app/src/utils/calculateRankings.py:91-94 | after the pointer update, following bucket slots and `next` fields gives the old chains without the removed node, whose own `next` is untouched |
| Rankings.UserHashTable.CheckTableLoad | app/src/utils/calculateRankings.py:116-117 | does nothing; the table stays valid |
| Rankings.UserHashTable.ResizeTable | app/src/utils/calculateRankings.py:119-120 | does nothing; the table stays valid |
| Rankings.PointsTree.constructor | app/src/utils/calculateRankings.py:124-135 | a new node is an empty, ordered tree holding no points; it has size 0 and counts as black |
| Rankings.PointsTree.TreeSize | app/src/utils/calculateRankings.py:137-141 | an empty tree has size 0; a non-empty one reports its stored child count |
| Rankings.PointsTree.IsNodeRed | app/src/utils/calculateRankings.py:143-147 | a node is red exactly when the tree is non-empty and its colour flag is set |
| Rankings.PointsTree.GetUsersByPoints | app/src/utils/calculateRankings.py:149-159 | in an ordered tree, stored points give their users; absent points give `None` on an empty tree and otherwise end in an `AttributeError` (as written) |
| Rankings.PointsTree.FindUsersByPoints | app/src/utils/calculateRankings.py:149-159 | in an ordered tree, the result is the users stored for the points, or `None` exactly when the points are not stored |
| Rankings.PointsTree.GetTopRankUsers | app/src/utils/calculateRankings.py:162-169 | fails with `EmptyUserDB` exactly when an ordered tree is empty; otherwise it returns the largest stored points with their users |
| Rankings.PointsTree.GetRankByUsername | app/src/utils/calculateRankings.py:171-172 | answers `None` |
| Rankings.PointsTree.InsertUser | app/src/utils/calculateRankings.py:175-182 | an empty tree takes the entry's points and links to the entry both ways, becoming the one-key tree whose top and lookup give its users. Its colour, child count, children and users are not touched. A non-empty tree and the entry are left unchanged |
| Rankings.PointsTree.DeleteUser | app/src/utils/calculateRankings.py:184-185 | the tree's contents are unchanged |
| Password.Search | passwordStrength.py:20-32 | `re.search` with a one-character class finds the first position whose character is in the class, and finds nothing exactly when no character is |
| Password.CharacterChecks | passwordStrength.py:19-35 | the `elif` chain accepts exactly when the password has a lowercase letter, an uppercase letter, a digit and a special character, and has no whitespace |
| Password.ValidatePassword | passwordStrength.py:15-35 | a password is accepted exactly when it is longer than eight characters and meets every character rule |
| Password.EightCharactersRejected | passwordStrength.py:17-18 | the eight-character `Pa5sw@rd` meets every character rule yet is rejected |
| Password.ValidatePasswordMin8 | passwordStrength.py:3 | the validator with the documented minimum accepts exactly the passwords of at least eight characters that meet every character rule |
| Age.DaysInMonth | app/src/calculateAge.py:5 | every month has between 28 and 31 days |
| Age.ParseMonth | app/src/calculateAge.py:5 | a parsed month lies in 1..12 and consumes its text; which month each text spells is stated by `MonthParses` and `MonthSpelled` |
| Age.ParseDay | app/src/calculateAge.py:5 | a parsed day lies in 1..31; which day each text spells is stated by `DayParses` and `DaySpelled` |
| Age.ParseDate | app/src/calculateAge.py:5 | a parsed birthday is a real calendar date in years 1..9999, from a text of 8 to 10 characters that starts with four digits and a `-`; `ParseDateSpells` states exactly which texts parse, and to which date |
| Age.MonthParses | app/src/calculateAge.py:5 | every spelling `%m` accepts for a month (two digits, or one below 10) parses to that month, leaving the text after its `-` |
| Age.MonthSpelled | app/src/calculateAge.py:5 | every month read was spelled in one of those ways and followed by `-` |
| Age.DayParses | app/src/calculateAge.py:5 | every spelling `%d` accepts for a day (two digits, or below 10 one digit bare or after a space) parses to that day |
| Age.DaySpelled | app/src/calculateAge.py:5 | every day read was spelled in one of those ways, with nothing after it |
| Age.YearSpelled | app/src/calculateAge.py:5 | four digits are the zero-padded spelling of the year they denote |
| Age.SpelledFromParse | app/src/calculateAge.py:5 | a text that parses spells, in the format `%Y-%m-%d`, the date it parses to |
| Age.ParseFromSpelled | app/src/calculateAge.py:5 | any spelling of a valid date in the format `%Y-%m-%d` parses to that date |
| Age.ParseDateSpells | app/src/calculateAge.py:5 | a text parses to a date exactly when the date is a real calendar date and the text spells it in the format `%Y-%m-%d`; every other text raises `ValueError` |
| Age.ParseFormat | app/src/calculateAge.py:5 | the zero-padded `YYYY-MM-DD` text of any valid date parses back to that date |
| Age.AgeOn | app/src/calculateAge.py:8-12 | the age is a count of anniversaries that are reached on `today` while the next one is not |
| Age.CalculateAge | app/src/calculateAge.py:4-14 | an unparsable birthday raises `ValueError`; otherwise the result is the number of whole years from the birthday to today |
| Age.AgeUnique | app/src/calculateAge.py:8-12 | that count is unique: any count whose anniversary is reached while the next is not equals the computed age |
| Age.AgeNonNegative | app/src/calculateAge.py:8-12 | anyone born on or before today has a non-negative age |
| Age.BirthdayCounts | app/src/calculateAge.py:10-11 | on the birthday itself the year is already complete |
| Auth.Attempt | app/src/auth.py:55-83 | one attempt on an existing account is locked exactly when the counter exceeds 5. A right password on an unlocked account logs in and resets the counter to 0. A wrong one shows the incorrect-password message and adds exactly one. A locked attempt leaves the counter alone |
| Auth.Resolve | app/src/auth.py:42-51 | an email resolves to an account exactly when exactly one of the two tables holds it, and then to that row |
| Auth.LoginPost | app/src/auth.py:32-83 | an email held by both tables gives the multiple-roles message, and nothing changes. An email held by neither gives "does not exist", and nothing changes. Otherwise the message and the new counter are those of `Attempt`; a login sets `login_type` to `"student"` or `"teacher"` by table and redirects to that role's page |
| Auth.RunAppend | app/src/auth.py:55-83 | a run of attempts split in two gives the same messages and counter as the whole run |
| Auth.WrongPasswordsCount | app/src/auth.py:57-62 | wrong passwords below the threshold each show the incorrect-password message and add one to the counter |
| Auth.LockedIsPermanent | app/src/auth.py:55-83 | once the counter exceeds 5, every attempt, with the right password or not, is locked and leaves the counter unchanged |
| Auth.SeventhWrongPasswordLocks | tests/test_login.py:85-140 | from a fresh account, six wrong passwords each show the incorrect-password message and the seventh shows the locked message |
| Auth.CounterBounded | app/src/auth.py:55-83 | a counter that starts in `0..6` stays in `0..6` whatever the attempts |
| Auth.LocalPrefix | app/src/auth.py:120 | the local part read by the pattern is the longest prefix of local-part characters |
| Auth.DottedLabelsIsLabelSeq | app/src/auth.py:120 | the executable dotted-label check accepts exactly the texts of the form `label(.label)*` |
| Auth.DomainIff | app/src/auth.py:120 | the executable domain check accepts exactly the texts of the form `label(.label)+` |
| Auth.EmailShapeIsPattern | app/src/auth.py:120 | the executable email check accepts exactly the texts of the form non-empty local part, `@`, a label, and at least one more `.label` |
| Auth.EmailMatchesPattern | app/src/auth.py:120 | `re.search` accepts exactly the texts of that form, optionally followed by one final newline, which `$` lets through |
| Auth.LoginTextDistinct | app/src/auth.py:50-82 | the five sign-in outcomes flash five different texts, so the text shown identifies the branch taken; the locked text is the same at lines 58 and 82 |
| Auth.Join | app/src/auth.py:137 | `sep.join(parts)`: no parts give the empty text, one part gives that part, and otherwise the text starts with the first part and has the parts' total length plus one separator between each pair of neighbours |
| Auth.JoinAppend | app/src/auth.py:137 | joining two non-empty lists in a row is joining each and putting the separator between them |
| Auth.RegisterText | app/src/auth.py:109-137 | a rejection's text starts with the weak-password prefix exactly when it is the weak-password rejection, and then the rest is the suggestions joined with `", "` |
| Auth.RegisterTextDistinct | app/src/auth.py:109-137 | two rejections flash the same text exactly when they are the same rejection, except that weak-password texts agree exactly when their joined suggestions do |
| Auth.ValidateRegistration | app/src/auth.py:108-138 | the checks run in the source's order. A rejected request fails with the error of a check that rejects it, and no earlier check rejects it. A request that passes is rejected by none of the nine checks. A weak password carries the strength checker's suggestions |
| Auth.FirstFailureDecides | app/src/auth.py:108-138 | two requests that agree on every check up to the deciding one get the same error |

## Left out

- Python's `hash` is salted per process. The table takes the string hash as a constructor parameter.
- `ceil(numElems * 1.2)` is computed exactly, so float rounding is not modelled. The constructor requires `numElems >= 1`, because a zero capacity makes the source's `%` raise on first use.
- Rankings.UserHashTable.InsertUser: requires a new entry that goes into an empty bucket to have no successor (`next` is `None`). The empty-bucket branch (lines 59-61) stores the entry without resetting `next`, so a stale successor would be linked in with it, and the chain view would no longer describe the table. The non-empty-bucket branch overwrites `next` (line 77) and needs no such requirement. The source has no caller of `insertUser`. Its own `deleteUser` leaves the removed node's `next` set, which `DeleteUser` states. So re-inserting a deleted entry into a bucket that has since emptied is a sequence the source allows and the model excludes: for a bucket holding A then B, delete A, delete B, insert A, and the table holds A and the deleted B with size 1.
- Rankings.UserEntryNode: `username` is a `const`. Python lets the attribute be reassigned (line 29), but nothing in the source does so. The table's placement invariant relies on usernames not changing after insertion.
- Resizing: `checkTableLoad` and `resizeTable` have empty bodies and are modelled as no-ops. The load factor is stored but never used.
- PointsTree: the source has no rotations, colour flips, subtree sizes, rank counting or deletion. `insertUser` handles only the empty tree and never appends to `users`. `getRankByUsername` and `deleteUser` are empty. The model follows the code, not the planned balanced, rank-augmented tree.
- Rankings.PointsTree.GetUsersByPoints, FindUsersByPoints and GetTopRankUsers: their results are characterised only for ordered trees. No tree the source builds is anything else.
- The refresh/diff facade and the rank queries described for the leaderboard are not in the source and are not modelled.
- `strptime` also accepts non-ASCII Unicode digits in the four digits of `%Y` and in the second digit of a `%d` day from 10 to 29 (the `\d` of its `[12]\d` alternative). Its `%m` pattern and the other `%d` alternatives use ASCII ranges only. The model accepts ASCII digits only.
- `datetime.today()` is a clock read; today's date is a parameter of `CalculateAge`.
- The rest of root `passwordStrength.py` is not modelled. `strength()` uses float scores from an external library, and `main()` is an interactive input loop.
- `check_password_strength` (`app/src/passwordStrength.py`) wraps an external policy whose rules are not visible. Its list of suggestions is an input of `ValidateRegistration`.
- Auth.RegisterText: the suggestions are assumed to be strings. `check_password_strength` returns the result of `policy.test(password)` (app/src/passwordStrength.py:23-26). In the external `password_strength` library that result is documented as a list of failed-test objects, not strings. `", ".join` on such a list (auth.py:137) would raise `TypeError` rather than flash the message. The library is outside this model. The rejection itself (check 9 of `ValidateRegistration`) does not depend on this.
- The Flask layer is not modelled: `flash`, `redirect`, `render_template`, `login_user` and the `remember` flag. Nor are the SQLAlchemy queries and the bcrypt comparison. Messages and pages are returned as values, and lookups and the password check are inputs.
- `register` calls `calculate_age` from `app/src/utils/calculateAge.py` before any check. That file is not part of this model. The account creation that follows the checks is a database side effect.
- `failed_signin_attempts` is declared in `app/src/models.py` as `db.Integer(...)`, not as a `db.Column`. Its persistence is not modelled; the counter is a field that starts at 0.
- Missing form fields (`request.form.get` returning `None`) are not modelled; every field is a string.

## Findings

| source | as written | input that shows it | evidently intended | confidence | as-written member | corrected member |
|---|---|---|---|---|---|---|
| passwordStrength.py:17-18 | `len(password) <= 8` rejects every password of exactly eight characters | `Pa5sw@rd`: eight characters, meets every character rule, rejected | "Minimum 8 characters" (line 3): accept `len >= 8` | not executed | Password.EightCharactersRejected | Password.ValidatePasswordMin8 |
| app/src/utils/calculateRankings.py:153-157 | `getUsersByPoints` descends into `self.right`/`self.left` without checking for `None` | a one-key tree holding 10 points, asked for 20: `None.getUsersByPoints` raises `AttributeError` | absent points answer "not found" (`None`), as on the empty tree | not executed | Rankings.PointsTree.GetUsersByPoints | Rankings.PointsTree.FindUsersByPoints |
