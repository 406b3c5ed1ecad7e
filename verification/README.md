# UserModel: credential checks of the chord-diagram application

This project models the account logic of the application's `UserModel` class
(`usermodel.cpp`) and proves properties of it. The account logic covers
registration and log-in against a local `registeredusers` table:

- `addUser` stores a user with the SHA-256 hash of the password, written as hexadecimal text.
- `verifyUser` checks an email/password pair against the table.
- `isUniqueEmail` tells whether an email is already registered.
- `isValidEmail`, `isValidPassword` and `isValidUsername` validate registration input.

Each check answers with a message. The message is either the literal `"Valid"`
or a rejection that starts with the cross mark U+2717 and a space.

Files:

- `wrappers.dfy`: the `Option` type used by the searches.
- `email_format.dfy`: the email regular expression
  `^[a-zA-Z0-9._%+-]+@[a-zA-Z0-9.-]+\.[a-zA-Z]{2,}$`.
  - `MatchesPattern` is the language of the expression: a split `L@D.T`.
  - `Recognise` is a hand-written left-to-right recogniser.
  - `RecogniseIffMatches` proves that the two accept the same strings.
  - `DomainPart` models how the domain is cut out for the MX lookup.
- `digest.dfy`: the hexadecimal rendering used by `hashPassword`. SHA-256 itself is a parameter.
- `user_model.dfy`: the messages, the two length validators, the table rows,
  and the class `UserModel` with its operations, plus lemmas about them.

The table is the field `rows: seq<Row>`, kept in insertion order. `addUser`
appends to it. The DNS MX lookup is passed to `IsValidEmail` as a function
`mx` from the name looked up to the lookup's reply. SHA-256 is the
constructor parameter `sha256`, an arbitrary function from passwords to
32-byte digests. No property of SHA-256 is assumed beyond determinism, which
holds because it is a function.

## Model

| member | source | states |
|---|---|---|
| UserModel.IsValidPassword | usermodel.cpp:183-192 | "Valid" exactly when the password has at least 8 UTF-16 code units; otherwise the "8 characters minimum" rejection; always a well-formed answer |
| UserModel.IsValidUsername | usermodel.cpp:195-204 | "Valid" exactly when the username has at most 20 UTF-16 code units (20 accepted, 21 rejected); otherwise the "must not exceed 20 characters" rejection |
| UserModel.Utf16Length | usermodel.cpp:107 | the length QString reports: between the character count and twice it; equal to the character count exactly when no character is above U+FFFF, and twice it exactly when every character is (also used at lines 186 and 198) |
| UserModel.SurrogatePairsCountTwice | usermodel.cpp:183-204 | four characters above U+FFFF make a valid password, and eleven make too long a username |
| UserModel.MessagesAreAnswers | usermodel.cpp:63-73 | every message the model returns (here and at lines 109, 120, 127, 157-161, 188, 200) is either exactly "Valid" or starts with the cross-mark prefix, never both |
| UserModel.UserModel.constructor | usermodel.cpp:5-8 | the model starts from the table already stored in users.db, with the given SHA-256 |
| UserModel.UserModel.AddUser | usermodel.cpp:11-29 | appends exactly one row (email, username, hash of the password), with no duplicate check. Afterwards the email is not unique. If it was new, logging in with that password succeeds and a table with unique emails keeps them unique. If it was already present, the table now holds a duplicate and log-in still reads the older row |
| UserModel.UserModel.IsUniqueEmail | usermodel.cpp:79-98 | true exactly when no row carries the email |
| UserModel.UserModel.VerifyUser | usermodel.cpp:39-76 | "Valid" exactly when the first row for the email stores the password's hash; "Incorrect password" exactly when that row stores another hash; "Email not found" exactly when no row carries the email |
| UserModel.UserModel.IsValidEmail | usermodel.cpp:101-163 | checks run in order: over 255 UTF-16 code units gives the length rejection; otherwise an address outside the regular expression's language gives the format rejection; otherwise a registered address gives "already in use"; otherwise "Valid" exactly when the MX lookup of the domain has no error and at least one record, and "Invalid domain" exactly when it does not |
| UserModel.FindRow | usermodel.cpp:49-56 | the lookup by email yields the first row carrying the email, and nothing exactly when no row carries it |
| UserModel.VerifyUserOnUniqueTable | usermodel.cpp:56-64 | on a table with unique emails, log-in succeeds exactly when some row has the email and the password's hash |
| UserModel.OverlongEmailDecidedByLength | usermodel.cpp:106-111 | an address over 255 UTF-16 code units gets the length rejection whatever the table and the DNS reply are, so neither is consulted |
| UserModel.MalformedEmailDecidedByFormat | usermodel.cpp:113-122 | an address of at most 255 UTF-16 code units outside the regular expression's language gets the format rejection whatever the table and the DNS reply are |
| UserModel.RegisteredEmailInUseWhateverDns | usermodel.cpp:124-129 | a well-formed address already in the table is "already in use" whatever the DNS reply |
| UserModel.DnsAskedOnlyAboutDomain | usermodel.cpp:131-139 | the lookup is asked only about the text after the pattern's '@': two lookups that agree there give the same answer |
| UserModel.ValidatedInsertKeepsUnique | usermodel.cpp:124-129 | adding a user whose email passed isValidEmail keeps the emails of the table unique |
| UserModel.AppendDuplicateBreaksUnique | usermodel.cpp:20-25 | inserting a row whose email is already present leaves two rows with that email |
| UserModel.AppendNewKeepsUnique | usermodel.cpp:20-25 | inserting a row with a new email into a table with unique emails keeps them unique |
| UserModel.AppendKeepsFirstRow | usermodel.cpp:20-25 | an insertion does not change which row is first for an email already present |
| EmailFormat.RecogniseIffMatches | usermodel.cpp:114-115 | the hand-written recogniser accepts exactly the strings that the regular expression matches in full, in both directions |
| EmailFormat.SplitIsRecognised | usermodel.cpp:114-115 | every split L@D.T admitted by the expression is accepted by the recogniser |
| EmailFormat.DotsUnrestricted | usermodel.cpp:114-115 | the expression accepts leading, trailing and repeated dots in the local part, and leading and repeated dots in the domain, so the dot rules in the comment at lines 165-179 are not enforced |
| EmailFormat.OneLetterTopLevelRejected | usermodel.cpp:114-115 | every address whose last dot has only one character after it is rejected |
| EmailFormat.TrailingDomainDotRejected | usermodel.cpp:114-115 | every address that ends in a dot is rejected, since it must end in letters |
| EmailFormat.DomainPart | usermodel.cpp:132-134 | the name for the lookup is the text after the first '@'; with no '@' the position wraps to 0 and it is the whole string |
| EmailFormat.DomainPartOfMatch | usermodel.cpp:132-134 | for a matching address that name is everything after the pattern's '@', at least 4 characters long |
| EmailFormat.Span | usermodel.cpp:114 | the length of the longest prefix of characters in a class; the recogniser uses it to scan each part |
| EmailFormat.LastIndexOf | usermodel.cpp:114 | the position of the last dot, after which only the top-level label's letters may follow |
| Digest.ToHex | usermodel.cpp:35 | the hexadecimal text has two characters per byte, and each pair renders its byte |
| Digest.ToHexInjective | usermodel.cpp:35 | distinct digests give distinct hexadecimal text |
| Digest.HashPassword | usermodel.cpp:32-36 | the stored hash is 64 lower-case hexadecimal digits |
| Digest.HashPasswordComparesDigests | usermodel.cpp:58-61 | comparing stored hashes is the same as comparing SHA-256 digests |

## Left out

- The user interface declared in `chords.h` is not part of this model. That covers the toggle switch, the chord window and the chord diagram editor: the header declares them without any behaviour.
- SHA-256 (`QCryptographicHash`) is a parameter. It is not assumed to be injective, so two passwords with the same digest are indistinguishable at log-in.
- The UTF-8 encoding of the password before hashing is part of that parameter.
- Opening, closing and committing the SQLite connection are not modelled, and neither are prepared statements. The table is the field `rows`.
- AddUser, and the rest of the model, assume that every SQL statement succeeds. The program ignores the results of `open()`, `exec()` and `commit()`. If users.db cannot be opened or a statement fails:
  - `addUser` silently inserts nothing, so `AddUser`'s promise that the email is no longer unique does not hold on that path;
  - `verifyUser` answers "Email not found";
  - `isUniqueEmail` answers true.
- ValidatedInsertKeepsUnique assumes that nothing changes the table between `isValidEmail` and the caller's `addUser`. In the program the check and the insert are not atomic. The nested event loop that waits for the MX reply runs other handlers after the uniqueness query. A second registration of the same email can then pass the check as well and insert a duplicate.
- The table's schema is not part of this model. If it declares Email UNIQUE, a duplicate insert would fail and its unchecked failure would leave the table unchanged. The model appends, as for a table without that constraint.
- The row order of a `SELECT` without `ORDER BY` is not fixed by SQL. `VerifyUser` reads the first row in insertion order. This matters only once duplicate emails exist.
- The DNS MX lookup and its nested event loop are a function parameter `mx`. Every `QDnsLookup` error code is one value, `LookupFailed`. The model does not capture that the lookup blocks the caller and can hang without a reply.
- The length checks count UTF-16 code units, as `QString::length` does. The regular expression runs on the UTF-8 bytes of the address. Every byte of a non-ASCII character is 0x80 or above, so it falls outside the bracket classes. The model's check over characters therefore rejects exactly the same addresses.
- The comment at usermodel.cpp:165-179 lists local-part rules that the expression does not enforce: no leading or trailing dot, no consecutive dots. The model follows the expression.
