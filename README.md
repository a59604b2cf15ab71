# Portfolio API handlers, modelled in Dafny

The portfolio site has two server-side handlers, and this project models both.

- **Repository proxy** (`GET /api/github`). It takes the answer of the upstream repository listing and turns it into a reply. Private entries are dropped. Each remaining entry is projected onto a fixed record, with missing topics read as an empty list. The records are sorted by star count, highest first, and equal star counts by last update, latest first. The first six are kept. A 404 from upstream becomes a 404 reply, a 403 becomes a 429 reply, and any other failure becomes a 500 reply. Every error reply carries an empty `repos` list.
- **Contact validator** (`POST /api/contact`). First it checks that `name`, `email` and `message` are all present and non-empty. Then it tests the address against `/^[^\s@]+@[^\s@]+\.[^\s@]+$/`. If both checks pass, it replies 200 with the fixed placeholder `EM DESENVOLVIMENTO`.

Files:
- `wrappers.dfy` defines `Option`, used for absent or null JSON fields and for missing headers.
- `github_route.dfy` (module `GithubRoute`) holds the pipeline (`Public`, `ProjectAll`, `Sort`, `Take`, `Process`) and the handler `Get`. Its input is an `Upstream` value: either `Fetched(status, resetHeader, body)` or `Failed`. `body` is `None` when the body is not a repository list. `Failed` means no response came back.
- `contact_route.dfy` (module `ContactRoute`) holds the handler `Post`, and three descriptions of the e-mail pattern:
  - `Matches`: a finite-state matcher that the handler runs.
  - `Pattern`: what the regular expression denotes, as an `@` index and a `.` index that split the address into three runs of `[^\s@]`.
  - `Structural`: the plain description. There is exactly one `@` and no whitespace. The part before the `@` is non-empty. The part after it has a `.` that is neither its first nor its last character.

  Lemmas prove that all three are equivalent.

Both handlers are functions. So the same inputs always give the same reply, which is how the handlers behave: they keep no state between calls.

Two details of the code that the model keeps:
- **Rate-limit reset time.** app/api/github/route.ts:41 tests the header's truthiness, so an empty header gives `null` just as a missing one does.
- **Status classification.** 404 and 403 are tested only when `response.ok` is false (`IsOk`, status outside 200–299). A 2xx response whose body is not a repository list reaches the `catch` and gets 500.

## Model

| member | source | states |
|---|---|---|
| GithubRoute.Account | app/api/github/route.ts:4 | The account is never empty. A non-empty configured name is used as given. Anything else falls back to the default account. |
| GithubRoute.Public | app/api/github/route.ts:58-62 | Each entry appears in the result as often as in the input if it is not private, and not at all if it is private. |
| GithubRoute.ProjectAll | app/api/github/route.ts:63-75 | The projection keeps the length, and position i of the result is the projection of input entry i. |
| GithubRoute.PrecedesMeans | app/api/github/route.ts:76-82 | The comparator puts a before b exactly when a has more stars, or equal stars and a later or equal update. |
| GithubRoute.PrecedesIsTotalPreorder | app/api/github/route.ts:76-82 | The comparator's order is total and transitive, so a sorted order exists. |
| GithubRoute.Insert | app/api/github/route.ts:76-82 | Inserting into a sorted list gives a sorted list that holds exactly the old elements plus the new one. |
| GithubRoute.Sort | app/api/github/route.ts:76-82 | The sort returns a permutation of its input, ordered by the comparator. |
| GithubRoute.Take | app/api/github/route.ts:83 | `slice(0, n)` has length min(n, input length), and position i holds input element i. |
| GithubRoute.RankedFromInput | app/api/github/route.ts:58-82 | The ranking has one record per public entry, and each record is the projection of a public input entry. |
| GithubRoute.SortedPrefix | app/api/github/route.ts:76-83 | The first n records of a sorted list come from the list and are non-increasing in stars. Where stars are equal, they are non-increasing in update time. |
| GithubRoute.Process | app/api/github/route.ts:58-83 | The reply list has min(6, number of public entries) records. None is private. Each is the projection of a public input entry. Stars do not increase along the list. Adjacent records with equal stars have non-increasing update times. |
| GithubRoute.SortedSplit | app/api/github/route.ts:76-83 | The first n records of a sorted list are part of it, and each one precedes every record left after them. |
| GithubRoute.ProcessKeepsTop | app/api/github/route.ts:76-83 | The reply list is part of the projected public entries. Every public entry it leaves out is ranked no higher than every record it keeps. |
| GithubRoute.Get | app/api/github/route.ts:20-95 | The reply status is 200, 404, 429 or 500. 200 comes exactly from a 2xx response with a repository list, and carries the processed list. 404 comes exactly from upstream 404, with the not-found message naming the configured account (or the default when the setting is unset or empty) and no reset-time field. 429 comes exactly from upstream 403, with the rate-limit message, and its reset time is null exactly when the header is absent or empty, otherwise taken from that header. Every error reply carries an empty `repos` list. Every other failure, including no response at all, gives 500 with the generic message. |
| ContactRoute.StepAccepts | app/api/contact/route.ts:13-14 | One matcher step keeps what the rest of the address must look like to be accepted. |
| ContactRoute.RunAccepts | app/api/contact/route.ts:13-14 | Running the matcher from a phase ends accepting exactly when the rest of the input has that phase's required shape. |
| ContactRoute.MatchesIffPattern | app/api/contact/route.ts:13-14 | The matcher accepts exactly the strings the regular expression denotes. |
| ContactRoute.PatternIsStructural | app/api/contact/route.ts:13 | A matching address has exactly one `@`, no whitespace, a non-empty local part and an inner `.` in its domain. |
| ContactRoute.StructuralIsPattern | app/api/contact/route.ts:13 | Every address of that structural shape matches the regular expression. |
| ContactRoute.PatternIffStructural | app/api/contact/route.ts:13 | The regular expression and the structural description accept the same strings. |
| ContactRoute.Post | app/api/contact/route.ts:8-18 | A missing or empty field gives 400 with the required-fields message, whatever the address. With all fields filled, an address without the structural shape gives 400 with the invalid-e-mail message. The reply is 200 exactly when all fields are filled and the address has that shape, and then it carries the placeholder. |
| ContactRoute.RejectedExamples | app/api/contact/route.ts:13-15 | `abc`, `a@b`, `a@b.`, `a@.b`, `a b@c.d` and `a@b@c.d` are rejected. |
| ContactRoute.AcceptedExamples | app/api/contact/route.ts:13-14 | `a@b.com` and `a@b.c.d` are accepted. |
| ContactRoute.WellFormedPostExample | app/api/contact/route.ts:18 | `{A, a@b.com, hi}` gets 200 with the placeholder. |
| ContactRoute.RejectedPostExamples | app/api/contact/route.ts:8-15 | A malformed address gets the e-mail error. An empty message, or a missing name with a bad address, gets the required-fields error. |

## Left out

- The outbound request is not modelled: URL, headers, the 300-second revalidation directive, reading the body as text or JSON, and logging. What came back is an `Upstream` input. An exception while reading the error body of a 404 or 403 would give 500 in the code. The model treats such a response as answered.
- Date parsing, `Number.parseInt`, and locale formatting of the reset time are left out. `updated` is an integer timestamp. The rate-limit reply carries the raw reset header (`ResetAt`) instead of the formatted local time built from it.
- Malformed upstream entries are left out: NaN comparator results from unparsable dates, non-boolean `private` values, non-array `topics`. `topics` is absent, null or a list.
- GithubRoute.Sort: the contracts state sorted and permutation, not the order of entries tied on both keys. The definition inserts ties in input order, as JavaScript's stable sort does, but no lemma states that.
- The request body of the contact handler is not parsed. Malformed JSON throws in the code and is not caught. Each field is an `Option<string>`: absent or a string. Non-string values and their truthiness are left out.
- `IsSpace` lists the ECMAScript WhiteSpace and LineTerminator code points for `\s`. The space-separator set follows one Unicode version. The general lemmas (matcher, pattern and structural equivalences, `Post`) use only that `@` and `.` are not spaces; the example lemmas use the list itself.
- Strings are sequences of Unicode scalar values, while the regular expression (no `u` flag) runs over UTF-16 code units. An address holding an unpaired surrogate, possible through a JSON `\ud800` escape, cannot be represented; for well-formed strings both readings agree.
- The page component, layout and build configuration are user interface and configuration, with no logic to model.
