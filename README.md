# News site: accounts, admin posting and feed queries

This project models the decision logic of a small server-rendered news site built on Express and a
document store. It covers three route files:

- **auth.js**: self-registration, login, logout and the startup routine that provisions the
  default administrator `admin@example.com`. This is the class `Auth.Accounts`. It holds the user
  collection, a store-assigned id counter and one client's session slot, and its methods update
  them in place.
- **news.js**: the `ensureAuth` and `ensureAdmin` guards, the admin dashboard and the category page
  with its trending list, all as functions. POST `/news/add` is the method `NewsRoutes.Newsroom.Add`
  on a class holding the category and news collections and the session's flash fields.
- **index.js**: the home page (trending list plus main feed), the category listing and the category
  detail page. These are pure functions in module `Feed`.

`Common` provides ASCII lower-casing and request-body truthiness. `Content` provides the category and
news records and the store lookups the routes run over them.

Invariants kept by every handler, for requests handled one at a time (see the concurrency line under "## Left out"):

- The user store keeps its emails lower-case and unique, and ids fresh.
- Only the reserved address holds the administrator role, and it always does.
- The session only ever holds the identity of a stored user.
- Categories never differ only in case, and every news item is filed under the exact name of a
  stored category. In the code the first half holds only for category names without regular-expression
  metacharacters; see "## Left out".

The store answers a sorted query with some newest-first permutation and leaves the order of equal
timestamps to itself. The feed lemmas (`Feed.TrendingOf`, `Feed.HomePartition`) therefore take that
answer as a parameter, constrained only by `Feed.RecencyOrder`. The functions `Feed.Trending` and
`Feed.Home` use one admissible answer, a stable insertion sort.

The password hasher is the constant `Auth.Accounts.hash`, an arbitrary function from strings to
digests. `bcrypt.compare(p, d)` is `hash(p) == d`, so `compare(p, hash(p))` always holds. Digests
are a type of their own, so stored passwords are never plaintext strings. The clock is the `now`
parameter of `Add`.

Behaviour of the code that the model keeps as written:

- The register and login error pages echo the whole submitted body, including the password
  (register: auth.js:23, 32, 41; login: auth.js:83, 92, 101).
- The category page of news.js (mounted at `/news/categories/:name`) answers an unknown name with
  no category (`null`), not a 404, and has no guard (news.js:66-79). Only index.js answers 404.
- index.js and news.js sort by `createdAt` only and fix no order for equal timestamps (index.js:14,
  22; news.js:72).
- Categories are created by case-insensitive match (news.js:40) but looked up by exact name
  (index.js:61, news.js:68).

## Model

| member | source | states |
|---|---|---|
| Common.Lower | auth.js:28 | lower-casing keeps the length, maps each character through ASCII lower-casing and leaves no upper-case letter |
| Common.LowerOfLower | auth.js:135-136 | a string with no upper-case letter is its own lower-case form |
| Common.Filled | auth.js:19 | a body field counts as given exactly when it is present and not the empty string, as JavaScript's `!field` tests (also auth.js:79, news.js:33) |
| Common.EqualsIgnoreCase | news.js:40 | the `^name$` match with flag `i`, on ASCII text: the two names lower-case to the same string |
| Common.EqualsIgnoreCasePointwise | news.js:40 | two names are equal ignoring case exactly when they have the same length and agree letter by letter after lower-casing |
| Common.EqualsIgnoreCaseEquivalence | news.js:40 | the case-insensitive match is reflexive, symmetric and transitive |
| Common.LowerIdempotent | auth.js:87 | lower-casing an already lower-cased address changes nothing, so a stored address is found again at login |
| Auth.Identity | auth.js:106-111 | definition: the session object `{id, name, email, role}` of a record; its type holds no digest |
| Auth.FindByEmail | auth.js:36-37 | the lookup answers a stored record with exactly that email, and answers none exactly when no record has it |
| Auth.CountAdmins | auth.js:133-149 | the number of admin records is zero exactly when no record has the admin role |
| Auth.CountEmail | auth.js:136-138 | the count of records at an address is zero exactly when the lookup finds none |
| Auth.AdminEmailIsLower | auth.js:135 | the reserved administrator address is lower-case |
| Auth.CountEmailUnique | auth.js:36-43 | with unique emails an address is stored exactly once if found and never otherwise |
| Auth.AdminsAreReservedRecords | auth.js:133-149 | when only the reserved address holds the admin role, the number of admins equals the number of records at that address |
| Auth.InsertKeepsUsersValid | auth.js:45-51 | appending a fresh-id record with a lower-case unused email whose role matches its address keeps the store invariant |
| Auth.Accounts.Register | auth.js:16-66 | a missing field, the reserved address in any casing and an already-stored lower-cased address each give their own error page and leave the users unchanged; otherwise exactly one `user`-role record is appended with the lower-cased email and the hash of the password, and the form is reset; the store invariant is kept |
| Auth.InvalidCredentials | auth.js:88-102 | definition: the login page with "Invalid credentials", no success message and the submitted form, built from the form alone; `Auth.Accounts.Login` gives it for both an unknown address and a wrong password |
| Auth.Accounts.Login | auth.js:76-121 | a missing field gives "Enter all fields"; an unknown address and a wrong password give the same invalid-credentials page and leave the session as it was; a match sets the session to exactly the record's id, name, email and role and redirects to / |
| Auth.Accounts.Logout | auth.js:124-130 | whether or not destroying the session reports an error, the session ends empty and the client is sent to /login |
| Auth.Accounts.EnsureAdmin | auth.js:133-153 | creates the `admin`-role record at the reserved address only when none is stored, otherwise changes nothing; afterwards exactly one record is at that address and exactly one admin exists |
| Auth.Accounts.RestartTwice | auth.js:133-154 | running the startup routine twice leaves the users and the id counter exactly as one run does, keeps the session, and leaves exactly one admin |
| Auth.RegisterThenLogin | auth.js:16-121 | after registering with any casing of an address, the lower-cased address is stored with the `user` role; a wrong password is refused with the invalid-credentials page; the right one logs in as a user |
| Content.FindCategory | index.js:61 | the exact-name lookup answers a stored category with exactly that name, and none exactly when no category has it |
| Content.FindCategoryIgnoreCase | news.js:40 | the case-insensitive lookup answers a stored category equal to the name ignoring case, and none exactly when no category is |
| Content.InCategory | index.js:67 | the news filter answers exactly the news filed under the name, each as often as in the store |
| Content.CreatedCategoryIsFound | news.js:40-44 | once a name is created, every spelling of it that differs only in case finds that category |
| Feed.ConsNewestFirst | index.js:13-14 | a record no older than anything in a newest-first list can be put in front of it |
| Feed.HeadNotOlder | index.js:13-14 | anything holding a newest-first list's tail plus an older record holds nothing newer than the list's head |
| Feed.Insert | index.js:13-14 | inserting into a newest-first list keeps it newest first and adds exactly that record |
| Feed.SortNewest | index.js:13-14 | the sort answers a newest-first permutation of its input |
| Feed.Take | index.js:15 | `.limit(k)` answers the first min(k, count) records, in order (also news.js:72) |
| Feed.IdSet | index.js:19 | the id list of the trending records holds the id of every trending record and no other id |
| Feed.ExcludeIds | index.js:19-21 | the `$nin` filter keeps exactly the records whose id is not listed, each as often as in the store |
| Feed.UniqueIdsOccurOnce | index.js:21 | with distinct ids no record occurs twice |
| Feed.ExcludeComplements | index.js:19-23 | with distinct ids, excluding the ids of a sub-collection leaves, record by record, exactly what that sub-collection does not hold |
| Feed.MainFeedAfterTrending | index.js:19-23 | for any newest-first answers of the store, the main feed shares no id with trending and no main-feed record is more recent than a trending one |
| Feed.PrefixDominates | index.js:13-16 | in a newest-first list every record of a prefix is at least as recent as every record outside it |
| Feed.TrendingOf | index.js:13-16 | for any newest-first answer of the store, the trending list has min(5, count) records, is newest first, is drawn from the news, and no record left out is more recent |
| Feed.HomePartition | index.js:13-23 | for any two newest-first answers of the store, trending and main feed share no id, every trending record is at least as recent as every main-feed record, and with distinct ids the two hold every record exactly once |
| Feed.Trending | news.js:72 | the trending list has min(5, count) records, newest first, drawn from the news, and nothing left out is more recent |
| Feed.Home | index.js:10-38 | the home page: trending has min(5, count) records; both lists are newest first; they share no id; trending dominates the main feed in recency; with distinct ids both together hold every record exactly once |
| Feed.CategoryListing | index.js:43-52 | definition: every category, unfiltered and in store order |
| Feed.CategoryDetail | index.js:56-76 | 404 exactly when no category has the exact name, with no news looked up; otherwise that category and exactly the news filed under the name, compared case-sensitively, possibly none |
| NewsRoutes.EnsureAuth | news.js:7-10 | passes exactly when the session holds a user, otherwise redirects to /login |
| NewsRoutes.IsAdmin | news.js:12 | the session holds a user whose role is admin |
| NewsRoutes.EnsureAdmin | news.js:11-14 | passes exactly when the session user is an admin, otherwise answers 403, not a redirect |
| NewsRoutes.AdminGuard | news.js:31 | the two guards in sequence pass exactly for an admin; no session redirects to /login; a non-admin gets 403 |
| NewsRoutes.Dashboard | news.js:19-28 | the add-news page with every category is shown exactly to an admin; others get the failing guard's answer |
| NewsRoutes.CategoryWithTrending | news.js:66-79 | the category is present exactly when one has the exact name; the news are exactly those filed under it; trending has min(5, count) records, newest first, and nothing left out is more recent |
| NewsRoutes.Complete | news.js:33 | a submission is complete when title, category and content are each present and not the empty string |
| NewsRoutes.FindOrCreate | news.js:40-44 | reuses the case-insensitively matching category or appends one with the submitted spelling; the stored category is found again by name; categories still never differ only in case; every name found before is still found |
| NewsRoutes.FilingKeepsRoomValid | news.js:47-52 | filing a fresh-id item under a stored category's name keeps distinct ids and every item filed under a stored category |
| NewsRoutes.Newsroom.Add | news.js:31-61 | a failing guard answers and changes nothing; a missing field sets the error flash and changes neither collection; otherwise the category collection becomes the find-or-create result, so its count grows by at most one, and exactly one item is appended under the stored (canonical) category's name with the next id and the given timestamp, with the success flash set |
| NewsRoutes.PostUnderTwoSpellings | news.js:40-51 | two postings whose category names differ only in case create one category, and both items are filed under the first spelling |

## Left out

- The catch branches are not modelled: auth.js:58-65, 113-120, 150-152; news.js:23-27, 56-60, 75-78; index.js:30-37, 47-51, 71-75. They answer "Server error" (or its route's equivalent) after a store failure, and after any exception the handler throws on a client-supplied value. The model's store never fails.
- Request-body fields are modelled as absent or a string (`Auth.Form`, `NewsRoutes.Submission`). The body parsers of server.js:25-26 also deliver arrays, objects and numbers. A non-empty array or a non-zero number passes `!field`. `toLowerCase` (auth.js:28, 87) or bcryptjs (auth.js:45, 96) then throws, so the catch branch answers "Server error" without changing state.
- bcrypt's salt, cost factor and timing are not modelled. Hashing is a deterministic function, and a wrong password whose digest collides with the stored one logs in.
- `toLowerCase` is modelled for ASCII letters only, not full Unicode.
- The case-insensitive category match of news.js:40 is modelled as case-insensitive equality. The source builds a regular expression from the unescaped input, so a name with regex metacharacters can match other names (`a.c` matches `abc`), can make the request fail (`(`), or can fail to match itself: `^a+b$` does not match the stored name `a+b`, so a second posting under `a+b` creates a second `a+b` category. The model's invariant that categories never differ only in case, kept by `NewsRoutes.FindOrCreate` and `NewsRoutes.RoomValid`, therefore holds in the code only for names without metacharacters.
- `ensureGuest` (auth.js) and the `ensureAuth` of index.js come from middleware/auth, which is not part of this model. The handlers are modelled as they run once such a guard has passed.
- The session store, its cookie and its 24-hour expiry are not modelled; the session is one slot. Clearing the cookie and logging a destroy error leave no trace in the model.
- The consume-once flash middleware of server.js is not modelled. `errorMsg` and `successMsg` are plain fields written by `Add`.
- Concurrency is not modelled; every handler runs to completion before the next request. The read-then-create steps of the code can race:
  - the startup routine runs unawaited at module load, and its lookup and create (auth.js:136-145) can interleave with other startups or a registration;
  - two overlapping registrations of the same new address both pass the lookup at auth.js:36 and both create at auth.js:46, giving two records with one email (or "Server error" for the second, if the user schema, not part of this model, has a unique index);
  - two overlapping postings of names that differ only in case both miss at news.js:40 and both create at news.js:42-43, giving two categories that differ only in case.
- Rendering is reduced to outcome values. The `currentUser` handed to the home page (index.js:26) is not modelled.
- The GET form pages of auth.js (11-13, 71-73) only render an empty form and are not modelled.
- Store ids are natural numbers handed out in increasing order; category ids are not modelled. The `createdAt` default lives in models/News, which is not part of this model; it is the `now` parameter of `Add`.
- seed.js and the plumbing of server.js (configuration, connection, static files, 404 fallthrough, listen) are not modelled.
- Feed.Home: its exactly-once statement assumes distinct news ids, which the store guarantees for `_id`; without that assumption the model proves the other properties only.
- Auth.Accounts.Logout: a failed session destroy is only a parameter that does not change the result, matching the code, which only logs the error.
