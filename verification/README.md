# Note store model

A Dafny model of the in-memory store behind a small multi-user note service
written in Go (`app.go`). Users sign up under their email. They log in with a
plaintext password and get a session token. With that token they list,
create and delete their own text notes. All state lives in one `Database`
record:

- `Users`: users by email.
- `Sessions`: the owning email, by token.
- `Notes`: note lists, by owner email.
- `NoteID`: a `uint32` note-id counter.

Every handler does its store work while it holds one lock. Here that work is
one method of the class `NoteStore.Store`, and each call is atomic. The
methods return an `Outcome` instead of writing an HTTP response.
`NoteStore.Status` maps each `Outcome` to its status code: 200, 400 or 401. Each handler's contract states which status it answers under which condition.

Files:

- `uint32.dfy`: the `uint32` counter and its wrapping `++`.
- `decimal.dfy`: the decimal rendering that `fmt.Sprintf("%d", …)` produces, its inverse, and the proof that rendering is injective.
- `notes.dfy`: the `Note` record, the delete filter `Without` and its lemmas: order is kept, deletes are idempotent, at most one note goes from a well numbered list, and create then delete restores the list.
- `store.dfy`: the `Store` class with the five handler methods, their footprints, and the store invariants.
- `scenarios.dfy`: handler sequences. They cover the signup, login, create, list, delete walkthrough; two logins sharing one token; consecutive ids; delete removing at most one note; and rejection of unknown tokens.

Two behaviours of the code are kept as written:

- **Counter wrap-around.** `NoteID` is a `uint32`, so `NoteID++` wraps to 0 after 2^32 − 1 (`Uint32.Inc`). Stored ids stay below the counter and strictly increasing in each list (`Store.IdsFresh`) only while the counter has not wrapped. `CreateNote` promises to preserve `IdsFresh` only when the old counter is below `MAX`.
- **Token collision.** Login does not advance the counter. Its token is `"session_"` followed by the current counter in decimal. `SessionTokenInjective` shows that two tokens are equal exactly when their counter values are. So two logins with no note created in between get the same token, and the second login rebinds it, possibly to another user (`Scenarios.SharedToken`).

Three consequences of the code are worth stating on their own:

- Note ids are reused once the counter wraps (`Uint32.Inc`), so ids are unique only until then.
- Delete removes every note carrying the id, not just the first. While ids are unique this is at most one note, which is what `Notes.WithoutRemovesAtMostOne` proves under `WellNumbered`.
- Login returns an existing token whenever no note has been created since the last login (`NoteStore.SessionTokenInjective`).

Delete writes the owner's filtered list back even when the owner had no list. The owner's key is then present with an empty list, as in the Go code.

## Model

| member | source | states |
|---|---|---|
| `Uint32.Inc` | app.go:134 | the counter after `NoteID++` is the old value plus one modulo 2^32; it is 0 exactly when the old value was 2^32 − 1 |
| `Decimal.Format` | app.go:84 | the `%d` rendering is a non-empty digit string with no leading zero; its first digit is '0' exactly for zero |
| `Decimal.ParseFormat` | app.go:84 | reading back the rendering of n gives n |
| `Decimal.FormatParse` | app.go:84 | rendering the value of any canonical digit string gives that string back |
| `Decimal.FormatInjective` | app.go:84 | two numbers render alike if and only if they are equal |
| `NoteStore.SessionTokenInjective` | app.go:84-85 | two tokens `"session_" + decimal(counter)` are equal if and only if they come from the same counter value, so logins with no note created in between share a token |
| `NoteStore.SessionToken` | app.go:84 | the token minted at login is "session_" followed by a canonical decimal string that reads back as the counter value |
| `NoteStore.NotesOf` | app.go:105 | reading an owner's list gives the stored list when the owner has a key; every note it yields is stored under that owner; a missing key reads as the empty list, like Go's nil slice |
| `NoteStore.CreateKeepsNumbering` | app.go:133-135 | if every stored list is well numbered for counter n, then after appending note n to one owner's list every list is well numbered for n + 1 |
| `NoteStore.DeleteKeepsNumbering` | app.go:163-170 | writing back one owner's filtered list keeps every stored list well numbered |
| `NoteStore.Store.constructor` | app.go:33-37 | a new store has no users, sessions or notes and its counter is 0 |
| `NoteStore.Store.Signup` | app.go:50-59 | a taken email gives UserExists (status 400) and changes nothing; otherwise status 200 and the user is stored under its email; sessions, notes and the counter are untouched; users stay keyed by their own email |
| `NoteStore.Store.Login` | app.go:76-88 | answers 200 or 401, and 200 exactly when the email is registered and the plaintext password matches; success binds the token for the current counter to that email and replaces any earlier binding of that token; failure adds no session; users, notes and the counter are untouched |
| `NoteStore.Store.ListNotes` | app.go:97-108 | an unknown token gives Unauthorized (401); otherwise 200 and the owner's stored list in insertion order, or empty when the owner has none; nothing changes |
| `NoteStore.Store.CreateNote` | app.go:125-138 | an unknown token gives Unauthorized (401) and changes nothing; otherwise 200, it answers the old counter as the id, the counter becomes `Inc` of it, and the owner's list becomes the old list plus the new note; other lists, users and sessions are untouched; while `IdsFresh` holds, the id is not in any existing list; `IdsFresh` holds afterwards unless the counter wrapped |
| `NoteStore.Store.DeleteNote` | app.go:155-172 | an unknown token gives Unauthorized (401) and changes nothing; otherwise it answers 200 even for a missing id, and the owner's list becomes `Without(old list, id)` built by the loop; other lists, users, sessions and the counter are untouched; the id invariant is kept |
| `Notes.Without` | app.go:163-170 | the filtered list is no longer than the input and holds exactly the input's notes whose id differs from the given one |
| `Notes.WithoutConcat` | app.go:164-169 | filtering distributes over concatenation, so the kept notes keep their relative order |
| `Notes.WithoutSnoc` | app.go:165-169 | one more note at the end of the input is kept exactly when its id differs, which is the loop's step |
| `Notes.WithoutAbsent` | app.go:163-172 | deleting an id that no note carries leaves the list as it was |
| `Notes.WithoutIdempotent` | app.go:163-170 | deleting the same id twice equals deleting it once |
| `Notes.WithoutWellNumbered` | app.go:163-170 | deleting keeps a list's ids strictly increasing and below the counter |
| `Notes.WithoutRemovesAtMostOne` | app.go:163-170 | in a well numbered list, delete removes exactly one note if the id is present and none otherwise |
| `Notes.AppendWellNumbered` | app.go:133-135 | appending a note numbered with the counter keeps the list well numbered for the next counter value |
| `Notes.DeleteUndoesAppend` | app.go:133-170 | deleting a just-created note by its fresh id restores the owner's list |
| `Scenarios.Walkthrough` | app.go:84-108 | on a fresh store, signup then login gives "session_0", creating "hi" gives id 0, listing shows exactly that note, and after deleting id 0 the list is empty |
| `Scenarios.SharedToken` | app.go:84-85 | two users logging in back to back get the same token; a note created with the first user's token lands in the second user's list |
| `Scenarios.ConsecutiveCreates` | app.go:133-134 | two successful creates, for any owners, answer n and `Inc(n)`, that is n + 1 absent wrap-around |
| `Scenarios.DeleteRemovesAtMostOne` | app.go:156-170 | on a valid store whose ids have not wrapped, a delete with a known token answers Ok and the owner's list loses exactly one note if the id is present and none otherwise |
| `Scenarios.RejectsUnknownSession` | app.go:97-160 | list, create and delete with a token not in the sessions map all answer Unauthorized and leave users, sessions, notes and the counter unchanged |

## Left out

- Request decoding. A body that fails to decode is answered with 400 "Invalid request format" before the lock is taken, and the store is never touched. Request fields are method parameters here.
- Response encoding (`jsonResponse`, `http.Error`). Go encodes a nil note list as JSON `null`, not `[]`. That happens when listing for a user with no notes, or after deleting every note. The model returns the empty sequence.
- The mutex. Each method is one atomic step. Concurrency is not modelled.
- Routing in `main`: the method switch with its 405 answer, the listening port and startup printing. This is process and network glue.
- The process-wide `db` singleton. It is replaced by an explicitly constructed `Store`.
- `fmt.Sprintf` is library code. `Decimal.Format` models only what it does to a `uint32` under `%d`.
