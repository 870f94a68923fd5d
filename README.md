# User registry of the messenger server

The messenger's HTTP server keeps its accounts in a module-level array,
`users`, held in memory. Each account is a plaintext `{ username, password }`
record. Two handlers use this array:

- `/register` rejects a request whose username or password is missing or empty.
  It then rejects a username that is already stored. Otherwise it appends the
  new record and answers `{ success: true }`.
- `/login` answers `{ success: true }` exactly when some stored record has both
  the given username and the given password.

This project models that registry in Dafny. `UserRegistry.UserStore` is a class
whose `users: seq<User>` field stands for the array. `Register` is a method that
changes the field. `FindByName` is the duplicate search written as a loop.
`Login` is a function that reads the field. The request fields are
`Option<string>` values: `None` is a field the JSON body does not carry, and
`Some("")` is the empty string. These are exactly the values JavaScript
treats as falsy here.

The invariant `WellFormed` says that no stored field is empty and no two
records share a username. The constructor establishes it, and `Register`
preserves it.

`RegisterStep` is the same registration written as a function on plain values.
`Replay` runs a sequence of registration requests from an empty store. The
lemmas about `Replay` cover every state the server can reach: each one is
well-formed, and a login that succeeds once keeps succeeding.

## Model

| member | source | states |
|---|---|---|
| `UserRegistry.FindAccount` | server.js:42-44 | the first index whose record has both the username and the password, or none exactly when no record matches both |
| `UserRegistry.UserStore.FindByName` | server.js:28 | the first index whose record has the username, or none exactly when no stored record has that username |
| `UserRegistry.UserStore.Register` | server.js:21-36 | a missing or empty field fails with "Заполни все поля" whether or not the name is taken, and leaves `users` unchanged; a taken name fails with "Пользователь уже существует" and leaves `users` unchanged; otherwise it succeeds and appends exactly `User(username, password)` after the old records; the new state and reply are those of `RegisterStep`; the invariant is preserved; afterwards login with the same fields succeeds |
| `UserRegistry.UserStore.Login` | server.js:39-51 | succeeds iff both fields are present and some stored record equals `(username, password)`; it is a function over the store, so it changes nothing |
| `UserRegistry.UserStore.constructor` | server.js:9 | the store starts empty, which satisfies the invariant |
| `UserRegistry.RegisterStep` | server.js:21-36 | one registration on plain values: a missing or empty field yields failure with "Заполни все поля" and unchanged records, whether or not the name is taken; two filled fields with a taken name yield failure with "Пользователь уже существует" and unchanged records; two filled fields with a new name yield success and the records with `User(username, password)` appended; the old records stay a prefix; a success needs both fields filled and appends exactly `User(username, password)`; a failure leaves the records unchanged and carries a message; a success makes login with the same fields succeed; usernames stay distinct and fields non-empty |
| `UserRegistry.ReplayWellFormed` | server.js:9-33 | every record list the server can reach from `users = []` through registrations has distinct usernames and non-empty fields |
| `UserRegistry.ReplayKeepsRecords` | server.js:33 | later registrations keep every earlier record in place |
| `UserRegistry.LoginsPersist` | server.js:33-50 | a login accepted at some point is accepted after any further registrations |
| `UserRegistry.WrongPasswordRejected` | server.js:42-47 | on a well-formed registry, a stored username with a different password does not log in |
| `UserRegistry.EmptyUsernameRejected` | server.js:42-47 | on a well-formed registry, an empty username does not log in with any password |

## Left out

- Express setup, body parsing, static files and the `/` route (server.js:1-18) are HTTP and file plumbing.
- The `/ping` route, `app.listen` and the `PORT` read from the environment (server.js:6, server.js:53-61) are a network server with console logging.
- JSON parsing and serialisation are left out. Handler inputs are `Option<string>` values, and outputs are a `Reply` value or a `bool`.
- Body fields that are JSON values other than strings (numbers, booleans, objects) are not modelled. Their JavaScript truthiness and `===` comparison are left out as well.
- Login's failure response `{ success: false }` is the `false` result of `Login`. Its success response is `true`.
- The source does no hashing or credential protection, and neither does the model: passwords are compared as plain strings.
- Request fields are sequences of Unicode scalar values. A JSON string holding a lone surrogate cannot be represented, although the body parser accepts one and `===` compares UTF-16 code units. On the strings the model can represent, `===` agrees with Dafny's string equality.
- Concurrency is not modelled; the handlers run one after another on a single thread.
