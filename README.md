# Client registration service: a Dafny model

This project models `ClientServiceImpl`, the single service class of a small
job-search backend. A client registers with a name and an email address. The
service validates both, saves the client through its repository, mints an API
key that is not yet in use, and records the key in an in-memory table from key
to client.

The model has five modules:

- `Chars` (chars.dfy): the character classes. These are the ASCII classes of the
  email patterns, the line terminators that Java's regex `.` does not match,
  and Java's `Character.isWhitespace`, on which `String.isBlank` is built.
- `EmailPattern` (email_pattern.dfy): the email format rule as predicates on
  finite strings. An address passes when it splits as `Local "@" Domain "." Top`
  (`IsStructural`) and no two neighbouring characters are outside
  `[a-zA-Z0-9]` (`HasAdjacentSpecials`). The module also proves the shape of
  accepted addresses and works through concrete examples.
- `EmailRegex` (email_regex.dfy): a literal reading of the two Java regular
  expressions. Groups become splits and `*`/`+` over a character class become
  runs. The module proves that the Java decision
  `!structure.matches(s) || run.matches(s)` is exactly `!IsWellFormed(s)`.
- `Validation` (validation.dfy): `validateName`, `validateEmail` and
  `validateInputClientDto` as functions returning `Pass` or
  `Fail(InvalidName(msg))` / `Fail(InvalidEmail(msg))`, with the source's
  messages. A Java `null` is `None`. The repository's `existsByEmail` is
  membership in a set of registered addresses.
- `ClientService` (client_service.dfy): the repository, reduced to its list of
  saved clients, and the class `ClientServiceImpl`. The class holds the
  `apiKeys` table as a `map<string, Client>` field that its methods update in
  place. `SaveClient` keeps the invariant `Consistent`: every address is saved
  once, every saved client passed validation, every key names a saved client,
  and no client holds two keys.

Two consequences of the code are worth knowing:

- **Single-label domains.** The regex at `ClientServiceImpl.java:68` has no dot
  inside the domain or the final label. So `alice@mail.example.com` is refused
  (`ConcreteAddressesRejected`), and every accepted address has exactly one dot
  after the `@` (`StructuralShape`).
- **Name length.** The length message says "shorter than 100", but the test is
  `length() > 100`. A name of exactly 100 characters therefore passes
  (`NameLengthBoundary`).

The regular expression's language was worked out by hand:

- `([a-zA-Z\d]+[\w\d+~.\-]*[a-zA-Z\d]*)*[a-zA-Z\d]+` is a non-empty run of
  `[A-Za-z0-9_+~.-]` that starts and ends alphanumeric.
- `([a-zA-Z\d]+[a-zA-Z\d\-]*[a-zA-Z\d]*)*[a-zA-Z\d]` is the same with
  `[A-Za-z0-9-]`.
- `([a-zA-Z]+[a-zA-Z-]*[a-zA-Z]+)+` is a run of `[A-Za-z-]` of length at least
  two that starts and ends with a letter.

`EmailRegex` proves these three equivalences rather than taking them on trust.

## Model

| member | source | states |
|---|---|---|
| `Validation.ValidateName` | jobsearch/src/main/java/com/example/jobsearch/services/ClientServiceImpl.java:74-81 | a name passes iff it is non-null, not blank and at most 100 characters long; every failure is an `InvalidName` |
| `Validation.ValidateEmail` | jobsearch/src/main/java/com/example/jobsearch/services/ClientServiceImpl.java:60-72 | an email passes iff it is non-null, not blank, not registered and well formed; every failure is an `InvalidEmail` |
| `Validation.ValidateInput` | jobsearch/src/main/java/com/example/jobsearch/services/ClientServiceImpl.java:55-58 | input passes iff both the name and the email pass; a failing name decides the outcome, and once the name passes the outcome is exactly the email check's |
| `Validation.BlankNameRejected` | jobsearch/src/main/java/com/example/jobsearch/services/ClientServiceImpl.java:75-77 | a null, empty or whitespace-only name fails with "Please give your name!" whatever the email and the registry |
| `Validation.NameLengthBoundary` | jobsearch/src/main/java/com/example/jobsearch/services/ClientServiceImpl.java:78-80 | a non-blank name gets the length error iff it is longer than 100; exactly 100 passes |
| `Validation.NameErrorWins` | jobsearch/src/main/java/com/example/jobsearch/services/ClientServiceImpl.java:55-58 | when both fields are invalid the error is the name error |
| `Validation.BlankEmailIgnoresRegistry` | jobsearch/src/main/java/com/example/jobsearch/services/ClientServiceImpl.java:61-63 | a blank email fails with "Please give an email address!" and the outcome is the same for every registry |
| `Validation.RegisteredBeforeFormat` | jobsearch/src/main/java/com/example/jobsearch/services/ClientServiceImpl.java:64-71 | a registered address is reported as "Email already registered!" even when malformed |
| `Validation.MalformedRejected` | jobsearch/src/main/java/com/example/jobsearch/services/ClientServiceImpl.java:67-70 | a non-blank, unregistered address that is not well formed fails with "Please give a valid email address!" |
| `Validation.AdjacentSpecialsRejected` | jobsearch/src/main/java/com/example/jobsearch/services/ClientServiceImpl.java:69-70 | an unregistered address with two adjacent non-alphanumerics fails with "Please give a valid email address!" |
| `Validation.AcceptedEmailShape` | jobsearch/src/main/java/com/example/jobsearch/services/ClientServiceImpl.java:60-72 | an accepted email has one `@`, one dot after it and an alphanumeric first character |
| `Validation.EmptyNameScenario` | jobsearch/src/main/java/com/example/jobsearch/services/ClientServiceImpl.java:74-77 | `("", "a@b.com")` fails with the missing-name message |
| `Validation.AliceScenario` | jobsearch/src/main/java/com/example/jobsearch/services/ClientServiceImpl.java:55-72 | `("Alice Smith", "alice@example.com")` passes against an empty registry |
| `Validation.DuplicateScenario` | jobsearch/src/main/java/com/example/jobsearch/services/ClientServiceImpl.java:64-65 | a second `bob@example.com` fails with the duplicate message |
| `Validation.AdjacentSpecialScenarios` | jobsearch/src/main/java/com/example/jobsearch/services/ClientServiceImpl.java:69-70 | `a..b@x.com` and `a.-b@x.com` fail with the format message |
| `Validation.MalformedScenarios` | jobsearch/src/main/java/com/example/jobsearch/services/ClientServiceImpl.java:67-70 | `not-an-email` and `a@b` fail with the format message |
| `EmailPattern.StructuralShape` | jobsearch/src/main/java/com/example/jobsearch/services/ClientServiceImpl.java:67-68 | a structural address has exactly one `@`, exactly one `.` after it, an alphanumeric first character and a final label of two or more characters that starts and ends with a letter |
| `EmailPattern.StructuralPositions` | jobsearch/src/main/java/com/example/jobsearch/services/ClientServiceImpl.java:68 | in a structural split the `@` is the only `@` and the dot is the only dot after it |
| `EmailPattern.StructuralAt` | jobsearch/src/main/java/com/example/jobsearch/services/ClientServiceImpl.java:68 | valid local part, `@`, domain label, `.` and final label glue into a structural address |
| `EmailPattern.PlainPiecesWellFormed` | jobsearch/src/main/java/com/example/jobsearch/services/ClientServiceImpl.java:67-70 | a structural address with alphanumeric local and domain parts and an alphabetic final label passes both format checks |
| `EmailPattern.DoubleDotStructuralButRejected` | jobsearch/src/main/java/com/example/jobsearch/services/ClientServiceImpl.java:67-70 | `a..b@x.com` fits the structural pattern but is not well formed |
| `EmailPattern.PlainAddressWellFormed` | jobsearch/src/main/java/com/example/jobsearch/services/ClientServiceImpl.java:67-70 | `alice@example.com` is well formed |
| `EmailPattern.NoAtRejected` | jobsearch/src/main/java/com/example/jobsearch/services/ClientServiceImpl.java:68 | a string without `@` is not structural |
| `EmailPattern.TwoDotsAfterAtRejected` | jobsearch/src/main/java/com/example/jobsearch/services/ClientServiceImpl.java:68 | a string with two dots after an `@` is not structural: the domain is one label |
| `EmailPattern.ConcreteAddressesRejected` | jobsearch/src/main/java/com/example/jobsearch/services/ClientServiceImpl.java:68 | `not-an-email`, `a@b` and `alice@mail.example.com` are not structural |
| `EmailRegex.OpenGroupsShape` | jobsearch/src/main/java/com/example/jobsearch/services/ClientServiceImpl.java:68 | a starred group `([a-zA-Z\d]+C*[a-zA-Z\d]*)*` matches exactly the empty string and the runs of C that start alphanumeric |
| `EmailRegex.LocalMatchesIff` | jobsearch/src/main/java/com/example/jobsearch/services/ClientServiceImpl.java:68 | the regex's local part matches exactly the strings `IsLocalPart` accepts |
| `EmailRegex.DomainMatchesIff` | jobsearch/src/main/java/com/example/jobsearch/services/ClientServiceImpl.java:68 | the regex's domain part matches exactly the strings `IsDomainLabel` accepts |
| `EmailRegex.ClosedGroupsIff` | jobsearch/src/main/java/com/example/jobsearch/services/ClientServiceImpl.java:68 | the regex's final `(...)+` group matches exactly the strings `IsTopLabel` accepts |
| `EmailRegex.StructureMatchesIff` | jobsearch/src/main/java/com/example/jobsearch/services/ClientServiceImpl.java:67-68 | the first regex matches a whole string iff it is `IsStructural` |
| `EmailRegex.StructuralHasNoLineTerminator` | jobsearch/src/main/java/com/example/jobsearch/services/ClientServiceImpl.java:68 | a structural address contains no line terminator |
| `EmailRegex.SpecialRunIff` | jobsearch/src/main/java/com/example/jobsearch/services/ClientServiceImpl.java:69 | a match of the second regex implies two adjacent specials, and the converse holds when no line terminator occurs |
| `EmailRegex.FormatCheckIff` | jobsearch/src/main/java/com/example/jobsearch/services/ClientServiceImpl.java:67-70 | the Java format condition rejects a string iff it is not `IsWellFormed` |
| `EmailRegex.LineTerminatorBlocksRun` | jobsearch/src/main/java/com/example/jobsearch/services/ClientServiceImpl.java:69 | `"a\nb.."` has adjacent specials yet the second regex does not match it |
| `ClientService.EmailsOf` | jobsearch/src/main/java/com/example/jobsearch/services/ClientServiceImpl.java:64 | the registered addresses are exactly the addresses of the saved clients |
| `ClientService.RegistrationKeepsConsistent` | jobsearch/src/main/java/com/example/jobsearch/services/ClientServiceImpl.java:37-45 | a validated client under a fresh key keeps addresses unique, saved clients valid, keys pointing at saved clients and one key per client |
| `ClientService.SavedEmailNowTaken` | jobsearch/src/main/java/com/example/jobsearch/services/ClientServiceImpl.java:64-65 | once a client is saved, its address fails as "Email already registered!" |
| `ClientService.ListingMultiset` | jobsearch/src/main/java/com/example/jobsearch/services/ClientServiceImpl.java:32-34 | a listing of a key set holds each key exactly once and has the set's size |
| `ClientService.ListingsAgree` | jobsearch/src/main/java/com/example/jobsearch/services/ClientServiceImpl.java:32-34 | two listings of the same key set contain the same keys with the same counts |
| `ClientService.ClientRepository.ExistsByEmail` | jobsearch/src/main/java/com/example/jobsearch/services/ClientServiceImpl.java:64 | true iff some saved client has the address |
| `ClientService.ClientRepository.Save` | jobsearch/src/main/java/com/example/jobsearch/services/ClientServiceImpl.java:41 | the client is appended to the saved clients |
| `ClientService.ClientServiceImpl.constructor` | jobsearch/src/main/java/com/example/jobsearch/services/ClientServiceImpl.java:19-25 | the table starts empty and is consistent with an empty repository |
| `ClientService.ClientServiceImpl.AddApiKeys` | jobsearch/src/main/java/com/example/jobsearch/services/ClientServiceImpl.java:28-30 | the table maps the key to the client; every other entry is unchanged |
| `ClientService.ClientServiceImpl.GetApiKeys` | jobsearch/src/main/java/com/example/jobsearch/services/ClientServiceImpl.java:32-34 | the result lists exactly the table's keys, each once |
| `ClientService.ClientServiceImpl.CheckIfApiKeyExists` | jobsearch/src/main/java/com/example/jobsearch/services/ClientServiceImpl.java:84-86 | true iff the key is in the table |
| `ClientService.ClientServiceImpl.CreateApiKey` | jobsearch/src/main/java/com/example/jobsearch/services/ClientServiceImpl.java:47-53 | the returned key is the first draw for which `CheckIfApiKeyExists` is false; every earlier draw collided |
| `ClientService.ClientServiceImpl.SaveClient` | jobsearch/src/main/java/com/example/jobsearch/services/ClientServiceImpl.java:37-45 | on a validation failure it returns that error and changes neither the table nor the repository. On success the key was not in the table, the table gains exactly that entry for the new client, the repository gains that client, and `Consistent` is preserved |

## Left out

- The random UUID source is not modelled as randomness. Each call takes the sequence `draws` of the key strings the generator would produce, in order. Their canonical 36-character form is not modelled.
- ClientService.ClientServiceImpl.CreateApiKey: requires that some draw is not yet a key. The source's retry loop has no bound, and this requirement stands in for "the generator eventually produces a fresh key".
- ClientService.ClientServiceImpl.SaveClient: carries the same requirement on `draws`, because it calls `CreateApiKey`.
- The `System.out.println(getApiKeys())` at line 43 is logging only, and it is not modelled.
- Spring wiring (`@Service`, `@Autowired`) is not modelled.
- The DTO classes are not modelled. `SaveClient` takes the DTO's name and email directly and returns the key in place of the output DTO.
- `existsByEmail` is not called as a separate step: `SaveClient` passes the set of saved addresses (`EmailsOf`) to the email check, and `ClientRepository.ExistsByEmail` states that membership in that set is the lookup.
- Java `null` API keys and `null` clients, which `HashMap` accepts in `addApiKeys` and `checkIfApiKeyExists`, are not modelled; keys are strings and clients are values.
- The repository's persistence, and any failure of `save`, are not modelled. A failure would propagate unchanged to the caller. `ClientRepository` is not part of this model beyond its list of saved clients.
- Thread safety of the key table and the race between the freshness check and the insert are not modelled. The model is sequential.
- Strings are sequences of Unicode scalar values. `length()` is the sequence length, and UTF-16 surrogate pairs are not modelled.
- The regex is modelled by the language it denotes. Backtracking cost and stack use of the Java regex engine are not modelled.
